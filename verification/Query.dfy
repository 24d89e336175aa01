/** The query-string loop of HttpRequest::tryDecode (src/common/handy/http.cc:107-132). */
module Query {

  function IndexOf(s: string, c: char): (i: nat)
    ensures i <= |s| && (i < |s| ==> s[i] == c) && forall j | 0 <= j < i :: s[j] != c
  {
    if s == "" || s[0] == c then 0 else 1 + IndexOf(s[1..], c)
  }

  lemma IndexOfIs(s: string, c: char, i: nat)
    requires i <= |s| && (i < |s| ==> s[i] == c) && forall j | 0 <= j < i :: s[j] != c
    ensures IndexOf(s, c) == i
  {
  }

  /** The pieces between '&' signs. */
  function Pieces(s: string): (ps: seq<string>)
    decreases |s|
  {
    var i := IndexOf(s, '&');
    if i == |s| then [s] else [s[..i]] + Pieces(s[i + 1..])
  }

  /** One piece, cut at its first '='; an empty key is dropped. */
  function Bind(args: map<string, string>, piece: string): map<string, string> {
    var i := IndexOf(piece, '=');
    if i == 0 then args
    else args[piece[..i] := if i < |piece| then piece[i + 1..] else ""]
  }

  function BindAll(args: map<string, string>, ps: seq<string>): map<string, string>
    decreases |ps|
  {
    if ps == [] then args else BindAll(Bind(args, ps[0]), ps[1..])
  }

  /** The reference: split on '&', cut each piece at its first '=', drop empty keys,
      the last binding of a key wins. */
  function Args(args: map<string, string>, qs: string): map<string, string> {
    BindAll(args, Pieces(qs))
  }

  lemma BindOne(args: map<string, string>, piece: string)
    ensures BindAll(args, [piece]) == Bind(args, piece)
  {
    assert [piece][1..] == [];
    assert BindAll(Bind(args, piece), []) == Bind(args, piece);
  }

  lemma ArgsOfEmpty(args: map<string, string>)
    ensures Args(args, "") == args
  {
    assert IndexOf("", '&') == 0;
    BindOne(args, "");
  }

  /** What remains of the query behind its first piece. */
  function Rest(qs: string): string {
    var i := IndexOf(qs, '&');
    if i < |qs| then qs[i + 1..] else ""
  }

  lemma ArgsStep(args: map<string, string>, qs: string)
    ensures Args(args, qs) == Args(Bind(args, qs[..IndexOf(qs, '&')]), Rest(qs))
  {
    var i := IndexOf(qs, '&');
    var b := Bind(args, qs[..i]);
    if i == |qs| {
      assert qs[..i] == qs;
      BindOne(args, qs);
      ArgsOfEmpty(b);
    } else {
      var ps := Pieces(qs);
      assert ps == [qs[..i]] + Pieces(Rest(qs));
      assert ps[0] == qs[..i] && ps[1..] == Pieces(Rest(qs));
    }
  }

  /** One round of the scan, from `kb` to the end of its piece: the four marks it
      sets delimit the key and the value of the piece. */
  method Marks(qs: string, kb: nat) returns (ke: nat, vb: nat, ve: nat, c: nat)
    requires kb < |qs|
    ensures kb <= ke <= vb <= ve <= c <= |qs| && kb < c
    ensures ve == kb + IndexOf(qs[kb..], '&') && c == (if ve < |qs| then ve + 1 else ve)
    ensures ke == kb + IndexOf(qs[kb..ve], '=') && vb == (if ke < ve then ke + 1 else ke)
  {
    c := kb;
    while c < |qs| && qs[c] != '=' && qs[c] != '&'
      invariant kb <= c <= |qs|
      invariant forall j | kb <= j < c :: qs[j] != '=' && qs[j] != '&'
    {
      c := c + 1;
    }
    ke := c;
    if c < |qs| && qs[c] == '=' {
      c := c + 1;
    }
    vb := c;
    while c < |qs| && qs[c] != '&'
      invariant vb <= c <= |qs|
      invariant forall j | kb <= j < c :: qs[j] != '&'
    {
      c := c + 1;
    }
    ve := c;
    IndexOfIs(qs[kb..], '&', ve - kb);
    IndexOfIs(qs[kb..ve], '=', ke - kb);
    if c < |qs| && qs[c] == '&' {
      c := c + 1;
    }
  }

  /** The index-juggling loop builds what the reference does, for every string. */
  method ParseQuery(args0: map<string, string>, qs: string) returns (args: map<string, string>)
    ensures args == Args(args0, qs)
  {
    args := args0;
    var c, kb := 0, 0;
    assert qs[0..] == qs;
    while c < |qs|
      invariant c == kb <= |qs|
      invariant Args(args, qs[c..]) == Args(args0, qs)
      decreases |qs| - c
    {
      var ke, vb, ve;
      ke, vb, ve, c := Marks(qs, kb);
      Round(args, qs, kb, ke, vb, ve, c);
      if kb != ke {
        args := args[qs[kb..ke] := qs[vb..ve]];
      }
      kb := c;
    }
    assert qs[c..] == "";
    ArgsOfEmpty(args);
  }

  /** One round takes the first piece off the rest of the query. */
  lemma Round(args: map<string, string>, qs: string, kb: nat, ke: nat, vb: nat, ve: nat, c: nat)
    requires kb <= ke <= vb <= ve <= c <= |qs|
    requires ve == kb + IndexOf(qs[kb..], '&') && c == (if ve < |qs| then ve + 1 else ve)
    requires ke == kb + IndexOf(qs[kb..ve], '=') && vb == (if ke < ve then ke + 1 else ke)
    ensures Args(args, qs[kb..]) == Args(if kb != ke then args[qs[kb..ke] := qs[vb..ve]] else args, qs[c..])
  {
    RoundParts(args, qs, kb, ke, vb, ve, c);
    ArgsStep(args, qs[kb..]);
  }

  lemma RoundParts(args: map<string, string>, qs: string, kb: nat, ke: nat, vb: nat, ve: nat, c: nat)
    requires kb <= ke <= vb <= ve <= c <= |qs|
    requires ve == kb + IndexOf(qs[kb..], '&') && c == (if ve < |qs| then ve + 1 else ve)
    requires ke == kb + IndexOf(qs[kb..ve], '=') && vb == (if ke < ve then ke + 1 else ke)
    ensures var tail := qs[kb..];
            && Bind(args, tail[..IndexOf(tail, '&')]) == (if kb != ke then args[qs[kb..ke] := qs[vb..ve]] else args)
            && Rest(tail) == qs[c..]
  {
    assert qs[kb..][..ve - kb] == qs[kb..ve];
    MarksBind(args, qs, kb, ke, vb, ve);
    MarksRest(qs, kb, ve, c);
  }

  lemma MarksRest(qs: string, kb: nat, ve: nat, c: nat)
    requires kb <= ve <= c <= |qs|
    requires ve == kb + IndexOf(qs[kb..], '&') && c == (if ve < |qs| then ve + 1 else ve)
    ensures Rest(qs[kb..]) == qs[c..]
  {
    if ve < |qs| {
      assert qs[kb..][ve - kb + 1..] == qs[c..];
    }
  }

  lemma MarksBind(args: map<string, string>, qs: string, kb: nat, ke: nat, vb: nat, ve: nat)
    requires kb <= ke <= vb <= ve <= |qs|
    requires ke == kb + IndexOf(qs[kb..ve], '=') && vb == (if ke < ve then ke + 1 else ke)
    ensures Bind(args, qs[kb..ve]) == if kb != ke then args[qs[kb..ke] := qs[vb..ve]] else args
  {
    assert qs[kb..ve][..ke - kb] == qs[kb..ke];
    if ke < ve {
      assert qs[kb..ve][ke - kb + 1..] == qs[vb..ve];
    } else {
      assert qs[vb..ve] == "";
    }
  }

  /** The part of the target before the first '?', and the loop around the scan. */
  method ParseTarget(args0: map<string, string>, target: string) returns (uri: string, args: map<string, string>)
    ensures var i := IndexOf(target, '?');
            && uri == target[..i]
            && args == if i < |target| then Args(args0, target[i + 1..]) else args0
  {
    args := args0;
    var i := 0;
    while i < |target|
      invariant 0 <= i <= |target| && args == args0
      invariant forall j | 0 <= j < i :: target[j] != '?'
    {
      if target[i] == '?' {
        IndexOfIs(target, '?', i);
        uri := target[..i];
        args := ParseQuery(args0, target[i + 1..]);
        return;
      }
      i := i + 1;
    }
    IndexOfIs(target, '?', i);
    uri := target;
  }

  // ------------------------------------------------------------------- round trip

  /** What a client writes between the '&' signs: a key with a value, a key alone, or a
      value without a key. */
  datatype Part = Pair(key: string, value: string) | Bare(key: string) | Nameless(value: string)

  predicate Plain(s: string) { forall i | 0 <= i < |s| :: s[i] != '&' }

  predicate PlainKey(s: string) { s != "" && forall i | 0 <= i < |s| :: s[i] != '&' && s[i] != '=' }

  predicate WellFormed(p: Part) {
    match p
    case Pair(key, value) => PlainKey(key) && Plain(value)
    case Bare(key) => PlainKey(key)
    case Nameless(value) => Plain(value)
  }

  function PartText(p: Part): string {
    match p
    case Pair(key, value) => key + "=" + value
    case Bare(key) => key
    case Nameless(value) => "=" + value
  }

  function QueryText(ps: seq<Part>): string {
    if ps == [] then "" else if |ps| == 1 then PartText(ps[0]) else PartText(ps[0]) + "&" + QueryText(ps[1..])
  }

  /** What the receiver should hold: later parts over earlier ones, a bare key with an
      empty value, and nothing for a nameless value. */
  function Meant(args: map<string, string>, ps: seq<Part>): map<string, string>
    decreases |ps|
  {
    if ps == [] then args else
      var next := match ps[0]
                  case Pair(key, value) => args[key := value]
                  case Bare(key) => args[key := ""]
                  case Nameless(_) => args;
      Meant(next, ps[1..])
  }

  lemma {:induction false} PartBinds(args: map<string, string>, p: Part)
    requires WellFormed(p)
    ensures Bind(args, PartText(p)) == Meant(args, [p])
    ensures Plain(PartText(p))
  {
    var t := PartText(p);
    assert [p][1..] == [];
    match p
    case Pair(key, value) =>
      assert t[|key|] == '=' && t[..|key|] == key && t[|key| + 1..] == value;
      assert forall j | 0 <= j < |key| :: t[j] == key[j];
      IndexOfIs(t, '=', |key|);
      assert forall j | |key| < j < |t| :: t[j] == value[j - |key| - 1];
    case Bare(key) =>
      IndexOfIs(t, '=', |t|);
      assert t[..|t|] == t;
    case Nameless(value) =>
      IndexOfIs(t, '=', 0);
      assert forall j | 0 < j < |t| :: t[j] == value[j - 1];
  }

  lemma {:induction false} FirstPart(args: map<string, string>, t: string, tail: string)
    requires Plain(t)
    ensures Args(args, t + "&" + tail) == Args(Bind(args, t), tail)
  {
    var text := t + "&" + tail;
    assert text[|t|] == '&' && forall j | 0 <= j < |t| :: text[j] == t[j];
    IndexOfIs(text, '&', |t|);
    assert text[..|t|] == t && text[|t| + 1..] == tail;
    ArgsStep(args, text);
  }

  lemma {:induction false} OnlyPart(args: map<string, string>, t: string)
    requires Plain(t)
    ensures Args(args, t) == Bind(args, t)
  {
    IndexOfIs(t, '&', |t|);
    assert t[..|t|] == t;
    ArgsStep(args, t);
    ArgsOfEmpty(Bind(args, t));
  }

  /** A query string built from well-formed parts means what was put in: values may hold
      further '=' signs. */
  lemma {:induction false} QueryRoundTrip(args: map<string, string>, ps: seq<Part>)
    requires forall p | p in ps :: WellFormed(p)
    ensures Args(args, QueryText(ps)) == Meant(args, ps)
    decreases |ps|
  {
    if ps == [] {
      ArgsOfEmpty(args);
    } else {
      var t, rest := PartText(ps[0]), ps[1..];
      assert ps[0] in ps && forall q | q in rest :: q in ps;
      PartBinds(args, ps[0]);
      MeantStep(args, ps);
      if |ps| == 1 {
        OnlyPart(args, t);
      } else {
        FirstPart(args, t, QueryText(rest));
        QueryRoundTrip(Bind(args, t), rest);
      }
    }
  }

  lemma {:induction false} MeantStep(args: map<string, string>, ps: seq<Part>)
    requires ps != []
    ensures Meant(args, ps) == Meant(Meant(args, [ps[0]]), ps[1..])
  {
    assert [ps[0]][1..] == [];
  }
}
