/** The one-line decision record: fields are sanitised so that the line always
    splits on spaces. */
module AuditLine {
  datatype Line = Line(decision: string, context: string, user: string, rhost: string, host: string,
                       reason: string, request: string)

  /** unicode.IsSpace, on Unicode scalar values. */
  predicate IsSpace(c: char) {
    var n := c as int;
    || 0x09 <= n <= 0x0D || n == 0x20 || n == 0x85 || n == 0xA0 || n == 0x1680
    || 0x2000 <= n <= 0x200A || n == 0x2028 || n == 0x2029 || n == 0x202F || n == 0x205F || n == 0x3000
  }

  /** unicode.IsControl. */
  predicate IsControl(c: char) {
    var n := c as int;
    0x00 <= n <= 0x1F || 0x7F <= n <= 0x9F
  }

  function Clean(c: char): char {
    if IsSpace(c) || IsControl(c) then '_' else c
  }

  function Field(s: string): (f: string)
    ensures f != "" && forall i :: 0 <= i < |f| ==> !IsSpace(f[i]) && !IsControl(f[i])
    ensures s == "" <==> |f| != |s|
    ensures s == "" ==> f == "-"
    ensures s != "" ==>
              forall i :: 0 <= i < |s| ==> f[i] == if IsSpace(s[i]) || IsControl(s[i]) then '_' else s[i]
  {
    if s == "" then "-" else seq(|s|, i requires 0 <= i < |s| => Clean(s[i]))
  }

  function Pair(key: string, value: string): string {
    key + Field(value)
  }

  /** The key=value pairs in the documented order, a space between them. */
  function Render(l: Line): string {
    Pair("decision=", l.decision) + " " + (
    Pair("context=", l.context) + " " + (
    Pair("user=", l.user) + " " + (
    Pair("rhost=", l.rhost) + " " + (
    Pair("host=", l.host) + " " + (
    Pair("reason=", l.reason) + " " +
    Pair("request=", l.request))))))
  }

  /** Splitting on single spaces. */
  function Split(s: string): (parts: seq<string>)
    ensures |parts| > 0
  {
    if s == "" then [""]
    else
      var rest := Split(s[1..]);
      if s[0] == ' ' then [""] + rest else [[s[0]] + rest[0]] + rest[1..]
  }

  const KEYS: seq<string> := ["decision=", "context=", "user=", "rhost=", "host=", "reason=", "request="]

  function Values(l: Line): seq<string> {
    [Field(l.decision), Field(l.context), Field(l.user), Field(l.rhost), Field(l.host),
     Field(l.reason), Field(l.request)]
  }

  /** What a parser reads back: the token without its key. */
  function ValueOf(token: string, key: string): string
    requires |key| <= |token|
  {
    token[|key|..]
  }

  predicate NoSpace(s: string) {
    forall i :: 0 <= i < |s| ==> s[i] != ' '
  }

  lemma {:induction false} SplitToken(t: string, rest: string)
    requires NoSpace(t)
    ensures Split(t + " " + rest) == [t] + Split(rest)
    decreases |t|
  {
    var s := t + " " + rest;
    if t == "" {
      assert s == " " + rest && s[1..] == rest;
    } else {
      assert s[0] == t[0] && s[1..] == t[1..] + " " + rest;
      SplitToken(t[1..], rest);
      assert [t[0]] + t[1..] == t;
    }
  }

  lemma {:induction false} SplitLast(t: string)
    requires NoSpace(t)
    ensures Split(t) == [t]
    decreases |t|
  {
    if t != "" {
      SplitLast(t[1..]);
      assert [t[0]] + t[1..] == t;
    }
  }

  /** The tokens from index i on, joined by single spaces. */
  function Joined(keys: seq<string>, values: seq<string>): string
    requires |keys| == |values| > 0
  {
    if |keys| == 1 then keys[0] + values[0]
    else keys[0] + values[0] + " " + Joined(keys[1..], values[1..])
  }

  lemma {:induction false} SplitJoined(keys: seq<string>, values: seq<string>)
    requires |keys| == |values| > 0
    requires forall i :: 0 <= i < |keys| ==> NoSpace(keys[i]) && NoSpace(values[i])
    ensures Split(Joined(keys, values)) == seq(|keys|, i requires 0 <= i < |keys| => keys[i] + values[i])
    decreases |keys|
  {
    var tokens := seq(|keys|, i requires 0 <= i < |keys| => keys[i] + values[i]);
    if |keys| == 1 {
      SplitLast(keys[0] + values[0]);
    } else {
      SplitToken(keys[0] + values[0], Joined(keys[1..], values[1..]));
      SplitJoined(keys[1..], values[1..]);
      assert tokens == [tokens[0]] + tokens[1..];
    }
  }

  lemma RenderIsJoined(l: Line)
    ensures Render(l) == Joined(KEYS, Values(l))
  {
    var v := Values(l);
    var k := KEYS;
    JoinStep(k, v);
    JoinStep(k[1..], v[1..]);
    JoinStep(k[2..], v[2..]);
    JoinStep(k[3..], v[3..]);
    JoinStep(k[4..], v[4..]);
    JoinStep(k[5..], v[5..]);
    assert Joined(k[6..], v[6..]) == k[6] + v[6];
  }

  lemma JoinStep(k: seq<string>, v: seq<string>)
    requires |k| == |v| > 1
    ensures Joined(k, v) == k[0] + v[0] + " " + Joined(k[1..], v[1..])
  {
  }

  /** Rendering any record gives exactly seven tokens, from which the seven
      sanitised values are read back. */
  lemma RenderSplits(l: Line)
    ensures var tokens := Split(Render(l));
            && |tokens| == 7
            && forall i :: 0 <= i < 7 ==>
                 && |KEYS[i]| <= |tokens[i]| && tokens[i][..|KEYS[i]|] == KEYS[i]
                 && ValueOf(tokens[i], KEYS[i]) == Values(l)[i]
  {
    RenderIsJoined(l);
    NoSpaces(l);
    SplitJoined(KEYS, Values(l));
    var tokens := Split(Render(l));
    forall i | 0 <= i < 7
      ensures |KEYS[i]| <= |tokens[i]| && tokens[i][..|KEYS[i]|] == KEYS[i]
      ensures ValueOf(tokens[i], KEYS[i]) == Values(l)[i]
    {
      assert tokens[i] == KEYS[i] + Values(l)[i];
    }
  }

  /** The seven tokens, by name. */
  lemma RenderTokens(l: Line)
    ensures Split(Render(l))
            == ["decision=" + Field(l.decision), "context=" + Field(l.context), "user=" + Field(l.user),
                "rhost=" + Field(l.rhost), "host=" + Field(l.host), "reason=" + Field(l.reason),
                "request=" + Field(l.request)]
  {
    RenderSplits(l);
    var tokens := Split(Render(l));
    forall i | 0 <= i < 7 ensures tokens[i] == KEYS[i] + Values(l)[i] {
      assert tokens[i] == tokens[i][..|KEYS[i]|] + ValueOf(tokens[i], KEYS[i]);
    }
  }

  lemma NoSpaces(l: Line)
    ensures |KEYS| == |Values(l)| == 7
    ensures forall i :: 0 <= i < 7 ==> NoSpace(KEYS[i]) && NoSpace(Values(l)[i])
  {
    forall i | 0 <= i < 7 ensures NoSpace(Values(l)[i]) {
      forall j | 0 <= j < |Values(l)[i]| ensures Values(l)[i][j] != ' ' {
        assert !IsSpace(Values(l)[i][j]);
      }
    }
  }

  /** Equal lines mean equal sanitised fields. */
  lemma RenderInjective(a: Line, b: Line)
    ensures Render(a) == Render(b) <==> Values(a) == Values(b)
  {
    RenderSplits(a);
    RenderSplits(b);
    if Render(a) == Render(b) {
      var tokens := Split(Render(a));
      assert forall i :: 0 <= i < 7 ==> Values(a)[i] == ValueOf(tokens[i], KEYS[i]) == Values(b)[i];
    }
  }

  /** A sanitised value is left alone. */
  lemma FieldIdempotent(s: string)
    ensures Field(Field(s)) == Field(s)
  {
    var f := Field(s);
    assert forall i :: 0 <= i < |f| ==> Clean(f[i]) == f[i];
  }

  /** Printable ASCII without spaces is written as it is; every other ASCII character becomes '_'. */
  lemma AsciiFields(s: string)
    requires s != "" && forall i :: 0 <= i < |s| ==> s[i] as int < 128
    ensures |Field(s)| == |s|
    ensures forall i :: 0 <= i < |s| ==> Field(s)[i] == if '!' <= s[i] <= '~' then s[i] else '_'
  {
  }
}
