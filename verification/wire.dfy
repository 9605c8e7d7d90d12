/**
 The text of one reading on the broadcast channel,
 `{"iec":"<address>","value":"<value>","timestamp":"<seconds>"}`
 (the f-strings of `Parameter.get_message`), and the receiver's `json.loads`
 of such a frame, restricted to this flat shape.
 */
module Wire {
  import opened Wrappers
  import Framing
  import Text

  /** The three fields of a frame, each as the text between its quotes. */
  datatype Reading = Reading(iec: string, value: string, timestamp: string)

  const IecKey: string := "{\"iec\":\""
  const ValueKey: string := "\",\"value\":\""
  const TimestampKey: string := "\",\"timestamp\":\""
  const Tail: string := "\"}"

  /** A character JSON takes literally inside a string: no quote, no backslash, no control character. */
  predicate PlainChar(c: char) {
    c >= ' ' && c != '"' && c != '\\'
  }

  predicate Plain(t: string) {
    forall i :: 0 <= i < |t| ==> PlainChar(t[i])
  }

  predicate PlainReading(x: Reading) {
    Plain(x.iec) && Plain(x.value) && Plain(x.timestamp)
  }

  /** The message text for a reading, with the fields inserted unescaped as the encoder does. */
  function Render(x: Reading): (m: string)
    ensures |m| >= |IecKey| + |ValueKey| + |TimestampKey| + |Tail| > 2
    ensures m[0] == '{' && m[|m| - 1] == '}'
  {
    IecKey + (x.iec + (ValueKey + (x.value + (TimestampKey + (x.timestamp + Tail)))))
  }

  /** The rest of `s` after `key`, when `s` starts with `key`. */
  function Expect(key: string, s: string): (r: Option<string>)
    ensures r.Some? <==> key <= s
    ensures r.Some? ==> s == key + r.value
  {
    if key <= s then Some(s[|key|..]) else None
  }

  lemma ExpectOf(key: string, rest: string)
    ensures Expect(key, key + rest) == Some(rest)
  {
    assert (key + rest)[|key|..] == rest;
  }

  /** The length of the longest prefix of `s` made of plain characters. */
  function PlainPrefix(s: string): (n: nat)
    ensures n <= |s|
    ensures forall i :: 0 <= i < n ==> PlainChar(s[i])
    ensures n < |s| ==> !PlainChar(s[n])
  {
    if |s| == 0 || !PlainChar(s[0]) then 0
    else
      var n := PlainPrefix(s[1..]);
      assert forall i :: 0 < i <= n ==> s[i] == s[1..][i - 1];
      1 + n
  }

  /** Splits `s` before its first character that cannot appear unescaped in a JSON string. */
  function Field(s: string): (p: (string, string))
    ensures s == p.0 + p.1
    ensures Plain(p.0)
    ensures |p.1| > 0 ==> !PlainChar(p.1[0])
  {
    var n := PlainPrefix(s);
    assert s == s[..n] + s[n..];
    (s[..n], s[n..])
  }

  lemma {:induction false} PlainPrefixOf(a: string, b: string)
    requires Plain(a)
    requires |b| > 0 && !PlainChar(b[0])
    ensures PlainPrefix(a + b) == |a|
  {
    if |a| > 0 {
      assert (a + b)[1..] == a[1..] + b;
      PlainPrefixOf(a[1..], b);
    } else {
      assert a + b == b;
    }
  }

  lemma FieldOf(a: string, b: string)
    requires Plain(a)
    requires |b| > 0 && !PlainChar(b[0])
    ensures Field(a + b) == (a, b)
  {
    PlainPrefixOf(a, b);
    assert (a + b)[..|a|] == a;
    assert (a + b)[|a|..] == b;
  }

  /**
   The receiver's `json.loads` of one frame, for the flat shape the encoder
   produces: `Some` exactly when the frame is the rendering of a reading whose
   fields are plain, `None` (the parse error) otherwise.
   */
  function ParseFlat(f: string): (r: Option<Reading>)
    ensures r.Some? ==> PlainReading(r.value) && Render(r.value) == f
  {
    match Expect(IecKey, f)
    case None => None
    case Some(s1) =>
      var (iec, s2) := Field(s1);
      match Expect(ValueKey, s2)
      case None => None
      case Some(s3) =>
        var (value, s4) := Field(s3);
        match Expect(TimestampKey, s4)
        case None => None
        case Some(s5) =>
          var (timestamp, s6) := Field(s5);
          if s6 != Tail then None else Some(Reading(iec, value, timestamp))
  }

  /** Parsing a rendered reading with plain fields gives the reading back. */
  lemma ParseRender(x: Reading)
    requires PlainReading(x)
    ensures ParseFlat(Render(x)) == Some(x)
  {
    var r3 := x.timestamp + Tail;
    var r2 := x.value + (TimestampKey + r3);
    var r1 := x.iec + (ValueKey + r2);
    ExpectOf(IecKey, r1);
    FieldOf(x.iec, ValueKey + r2);
    ExpectOf(ValueKey, r2);
    FieldOf(x.value, TimestampKey + r3);
    ExpectOf(TimestampKey, r3);
    FieldOf(x.timestamp, Tail);
  }

  /** `ParseFlat` accepts a frame exactly when it is the rendering of a plain reading. */
  lemma ParseFlatExact(f: string, x: Reading)
    ensures ParseFlat(f) == Some(x) <==> (PlainReading(x) && Render(x) == f)
  {
    if PlainReading(x) && Render(x) == f {
      ParseRender(x);
    }
  }

  /** A reading whose rendering the receiver frames and parses back: plain fields without a `}`. */
  predicate Framable(x: Reading) {
    PlainReading(x) && '}' !in x.iec && '}' !in x.value && '}' !in x.timestamp
  }

  /** Every character of `t` may sit inside a frame. */
  predicate AllInterior(t: string) {
    forall i :: 0 <= i < |t| ==> Framing.Interior(t[i])
  }

  /** A reading whose rendering is one frame: no field holds a `}` or a newline. */
  predicate FrameSafe(x: Reading) {
    AllInterior(x.iec) && AllInterior(x.value) && AllInterior(x.timestamp)
  }

  lemma FramableFrameSafe(x: Reading)
    requires Framable(x)
    ensures FrameSafe(x)
  {
    FieldInterior(x.iec);
    FieldInterior(x.value);
    FieldInterior(x.timestamp);
  }

  lemma FieldInterior(t: string)
    requires Plain(t) && '}' !in t
    ensures AllInterior(t)
  {
    forall i | 0 <= i < |t|
      ensures Framing.Interior(t[i])
    {
      assert PlainChar(t[i]);
      assert t[i] in t;
    }
  }

  lemma InteriorConcat(a: string, b: string)
    requires AllInterior(a) && AllInterior(b)
    ensures AllInterior(a + b)
  {
    forall i | 0 <= i < |a + b|
      ensures Framing.Interior((a + b)[i])
    {
      if i < |a| {
        assert (a + b)[i] == a[i];
      } else {
        assert (a + b)[i] == b[i - |a|];
      }
    }
  }

  /** What a rendering holds between its opening and its closing brace. */
  function Inner(x: Reading): string {
    IecKey[1..] + (x.iec + (ValueKey + (x.value + (TimestampKey + (x.timestamp + "\"")))))
  }

  lemma RenderBraces(x: Reading)
    ensures Render(x) == "{" + Inner(x) + "}"
  {
    assert IecKey == "{" + IecKey[1..];
    assert Tail == "\"" + "}";
  }

  lemma InnerInterior(x: Reading)
    requires FrameSafe(x)
    ensures AllInterior(Inner(x))
  {
    assert AllInterior(IecKey[1..]);
    assert AllInterior(ValueKey);
    assert AllInterior(TimestampKey);
    assert AllInterior("\"");
    InteriorConcat(x.timestamp, "\"");
    InteriorConcat(TimestampKey, x.timestamp + "\"");
    InteriorConcat(x.value, TimestampKey + (x.timestamp + "\""));
    InteriorConcat(ValueKey, x.value + (TimestampKey + (x.timestamp + "\"")));
    InteriorConcat(x.iec, ValueKey + (x.value + (TimestampKey + (x.timestamp + "\""))));
    InteriorConcat(IecKey[1..], x.iec + (ValueKey + (x.value + (TimestampKey + (x.timestamp + "\"")))));
  }

  /** When no field holds a `}` or a newline, the rendering is exactly one frame: `{`, no other `}`, then `}`. */
  lemma RenderIsFrame(x: Reading)
    requires FrameSafe(x)
    ensures Framing.IsFrame(Render(x))
  {
    var m := Render(x);
    RenderBraces(x);
    InnerInterior(x);
    forall k | 0 < k < |m| - 1
      ensures Framing.Interior(m[k])
    {
      assert m[k] == Inner(x)[k - 1];
    }
  }

  /** With no `{` in its fields, a rendering opens exactly once, at its first character. */
  lemma RenderOpensOnce(x: Reading)
    requires '{' !in x.iec && '{' !in x.value && '{' !in x.timestamp
    ensures '{' !in Render(x)[1..]
  {
    RenderBraces(x);
    assert Render(x)[1..] == Inner(x) + "}";
    assert '{' !in IecKey[1..] && '{' !in ValueKey && '{' !in TimestampKey;
  }

  /** With no `}` in its fields, a rendering closes exactly once, at its last character. */
  lemma RenderClosesOnce(x: Reading)
    requires '}' !in x.iec && '}' !in x.value && '}' !in x.timestamp
    ensures '}' !in Render(x)[..|Render(x)| - 1]
  {
    RenderBraces(x);
    assert Render(x)[..|Render(x)| - 1] == "{" + Inner(x);
    assert '}' !in IecKey[1..] && '}' !in ValueKey && '}' !in TimestampKey && '}' !in "\"";
  }

  /** Framing a run of rendered readings, none with a `}` or a newline in a field, returns their messages in order. */
  lemma FramesOfRenders(xs: seq<Reading>)
    requires forall k :: 0 <= k < |xs| ==> FrameSafe(xs[k])
    ensures Framing.Frames(Text.Flatten(Renders(xs))) == Renders(xs)
  {
    var ms := Renders(xs);
    forall k | 0 <= k < |ms|
      ensures Framing.IsFrame(ms[k])
    {
      RenderIsFrame(xs[k]);
    }
    Framing.FramesOfFlatten(ms);
  }

  /** End to end: frames cut from a run of rendered readings parse back to those readings, in order. */
  lemma ParseFramesOfRenders(xs: seq<Reading>)
    requires forall k :: 0 <= k < |xs| ==> Framable(xs[k])
    ensures Framing.Frames(Text.Flatten(Renders(xs))) == Renders(xs)
    ensures forall k :: 0 <= k < |xs| ==> ParseFlat(Renders(xs)[k]) == Some(xs[k])
  {
    forall k | 0 <= k < |xs|
      ensures FrameSafe(xs[k]) && ParseFlat(Renders(xs)[k]) == Some(xs[k])
    {
      FramableFrameSafe(xs[k]);
      ParseRender(xs[k]);
    }
    FramesOfRenders(xs);
  }

  /** The messages of several readings, in order. */
  function Renders(xs: seq<Reading>): (ms: seq<string>)
    ensures |ms| == |xs|
    ensures forall k :: 0 <= k < |xs| ==> ms[k] == Render(xs[k])
  {
    seq(|xs|, k requires 0 <= k < |xs| => Render(xs[k]))
  }
}
