/**
 The simulated controller's parameters (`IntegerParameter`, `FloatParameter`,
 `BooleanParameter`), the factory that names them (`ParameterFabric`), and the
 message one reading is broadcast as (`Parameter.get_message`).
 */
module Parameters {
  import opened Wrappers
  import opened Text
  import Wire
  import Framing

  datatype Kind = IntegerKind | FloatKind | BooleanKind

  /**
   What the `value` property returns. An integer parameter reports
   `float(n)`, kept here as `n`; a float is kept as the text `str()` gives it,
   since floating point is not modelled.
   */
  datatype Value = IntegerValue(n: int) | FloatValue(repr: string) | BooleanValue(b: bool)

  /** One parameter: its kind, its name, its address (0 until the controller assigns one), its value. */
  datatype Parameter = Parameter(kind: Kind, name: string, address: int, value: Value)

  function BaseName(k: Kind): string {
    match k
    case IntegerKind => "IntegerParameter"
    case FloatKind => "FloatParameter"
    case BooleanKind => "BooleanParameter"
  }

  /** The value a freshly constructed parameter holds. */
  function InitialValue(k: Kind): Value {
    match k
    case IntegerKind => IntegerValue(0)
    case FloatKind => FloatValue("0.0")
    case BooleanKind => BooleanValue(false)
  }

  /**
   The values `randomize_value` can draw: an integer in [0, 100], any float
   (its text), a boolean.
   */
  predicate Drawable(k: Kind, v: Value) {
    match k
    case IntegerKind => v.IntegerValue? && 0 <= v.n <= 100
    case FloatKind => v.FloatValue?
    case BooleanKind => v.BooleanValue?
  }

  /**
   `str(self.value)`: `str(float(n))` is the decimal text of `n` followed by
   `.0`, a float is its own text, a boolean is `True` or `False`.
   */
  function ValueText(v: Value): (t: string)
    ensures v.IntegerValue? ==> |t| > 2 && t[|t| - 2..] == ".0" && '.' !in t[..|t| - 2] && (t[0] == '-' <==> v.n < 0)
    ensures v.FloatValue? ==> t == v.repr
    ensures v.BooleanValue? ==> (t == "True" || t == "False") && (t == "True" <==> v.b)
  {
    match v
    case IntegerValue(n) => IntText(n) + ".0"
    case FloatValue(r) => r
    case BooleanValue(b) => if b then "True" else "False"
  }

  /** Two values of one kind with the same text are the same value. */
  lemma ValueTextInjective(v: Value, w: Value)
    requires v.IntegerValue? == w.IntegerValue? && v.FloatValue? == w.FloatValue?
    requires ValueText(v) == ValueText(w)
    ensures v == w
  {
    if v.IntegerValue? {
      var t := ValueText(v);
      assert t[..|t| - 2] == IntText(v.n) && t[..|t| - 2] == IntText(w.n);
      IntTextInjective(v.n, w.n);
    }
  }

  /** The three fields of the message for `p` sent at second `now`. */
  function ReadingOf(p: Parameter, now: int): Wire.Reading {
    Wire.Reading(IntText(p.address), Lower(ValueText(p.value)), IntText(now))
  }

  /** A float's text the receiver can frame and parse: plain JSON string characters, no `}`. */
  predicate SafeValue(v: Value) {
    v.FloatValue? ==> Wire.Plain(v.repr) && '}' !in v.repr
  }

  /**
   `get_message`: the reading rendered as one frame, with the address, the
   lower-cased value text and the timestamp (`int(time.time())`, a parameter
   here).
   */
  function GetMessage(p: Parameter, now: int): (m: string)
    ensures |m| > 2
    ensures m[0] == '{' && m[|m| - 1] == '}'
  {
    Wire.Render(ReadingOf(p, now))
  }

  /**
   What the receiver makes of a message: when the value text is safe, it
   frames as itself and parses back to exactly the address, the lower-cased
   value text and the timestamp.
   */
  lemma MessageRoundTrip(p: Parameter, now: int)
    requires SafeValue(p.value)
    ensures Framing.Frames(GetMessage(p, now)) == [GetMessage(p, now)]
    ensures Wire.ParseFlat(GetMessage(p, now)) == Some(ReadingOf(p, now))
  {
    var x := ReadingOf(p, now);
    ReadingFramable(p, now);
    Wire.ParseRender(x);
    Wire.FramableFrameSafe(x);
    Wire.RenderIsFrame(x);
    Framing.FramesOfFrame(Wire.Render(x));
  }

  /** Decimal text is plain and brace-free. */
  lemma IntTextSafe(n: int)
    ensures Wire.Plain(IntText(n)) && '{' !in IntText(n) && '}' !in IntText(n)
  {
    var t := IntText(n);
    forall i | 0 <= i < |t|
      ensures Wire.PlainChar(t[i]) && t[i] != '{' && t[i] != '}'
    {
    }
  }

  lemma LowerSafe(t: string)
    requires Wire.Plain(t) && '}' !in t
    ensures Wire.Plain(Lower(t)) && '}' !in Lower(t)
  {
    var l := Lower(t);
    forall i | 0 <= i < |l|
      ensures Wire.PlainChar(l[i]) && l[i] != '}'
    {
      assert t[i] in t;
      assert Wire.PlainChar(t[i]);
    }
  }

  lemma ReadingFramable(p: Parameter, now: int)
    requires SafeValue(p.value)
    ensures Wire.Framable(ReadingOf(p, now))
  {
    IntTextSafe(p.address);
    IntTextSafe(now);
    var t := ValueText(p.value);
    match p.value
    case IntegerValue(n) =>
      IntTextSafe(n);
      assert Wire.Plain(".0") && '}' !in ".0";
      assert forall i :: 0 <= i < |t| ==> Wire.PlainChar(t[i]) && t[i] != '}' by {
        forall i | 0 <= i < |t|
          ensures Wire.PlainChar(t[i]) && t[i] != '}'
        {
          if i < |IntText(n)| {
            assert t[i] == IntText(n)[i];
            assert IntText(n)[i] in IntText(n);
          } else {
            assert t[i] == ".0"[i - |IntText(n)|];
          }
        }
      }
      LowerSafe(t);
    case FloatValue(r) =>
      LowerSafe(t);
    case BooleanValue(b) =>
      LowerSafe(t);
  }

  /** Booleans go on the wire as `true` and `false`. */
  lemma BooleanText(p: Parameter, now: int)
    requires p.value.BooleanValue?
    ensures ReadingOf(p, now).value == if p.value.b then "true" else "false"
  {
    if p.value.b {
      assert Lower("True") == "true";
    } else {
      assert Lower("False") == "false";
    }
  }

  /** Integer parameters go on the wire as `str(float(n))`, e.g. `42.0`. */
  lemma IntegerText(p: Parameter, now: int)
    requires p.value.IntegerValue?
    ensures ReadingOf(p, now).value == IntText(p.value.n) + ".0"
  {
    var t := IntText(p.value.n) + ".0";
    IntTextSafe(p.value.n);
    forall i | 0 <= i < |t|
      ensures !IsUpper(t[i])
    {
      if i < |IntText(p.value.n)| {
        assert t[i] == IntText(p.value.n)[i];
      }
    }
    assert Lower(t) == t;
  }

  /** The per-kind counters of `ParameterFabric`, all starting at 0. */
  datatype Fabric = Fabric(booleans: nat, integers: nat, floats: nat)

  function NewFabric(): Fabric {
    Fabric(0, 0, 0)
  }

  function Counter(f: Fabric, k: Kind): nat {
    match k
    case IntegerKind => f.integers
    case FloatKind => f.floats
    case BooleanKind => f.booleans
  }

  /**
   `create_integer`, `create_float`, `create_boolean`: a fresh parameter of
   kind `k` named after the kind and that kind's counter, which then goes up
   by one; the other two counters stay as they were.
   */
  function Create(f: Fabric, k: Kind): (r: (Fabric, Parameter))
    ensures r.1.kind == k && r.1.address == 0 && r.1.value == InitialValue(k)
    ensures r.1.name == BaseName(k) + NatText(Counter(f, k))
    ensures Counter(r.0, k) == Counter(f, k) + 1
    ensures forall k' :: k' != k ==> Counter(r.0, k') == Counter(f, k')
  {
    var p := Parameter(k, BaseName(k) + NatText(Counter(f, k)), 0, InitialValue(k));
    match k
    case IntegerKind => (f.(integers := f.integers + 1), p)
    case FloatKind => (f.(floats := f.floats + 1), p)
    case BooleanKind => (f.(booleans := f.booleans + 1), p)
  }

  /** Names built from a kind and a counter determine both. */
  lemma NameDetermines(k1: Kind, n1: nat, k2: Kind, n2: nat)
    requires BaseName(k1) + NatText(n1) == BaseName(k2) + NatText(n2)
    ensures k1 == k2 && n1 == n2
  {
    var a := BaseName(k1) + NatText(n1);
    var b := BaseName(k2) + NatText(n2);
    assert a[0] == BaseName(k1)[0] && b[0] == BaseName(k2)[0];
    assert k1 == k2;
    assert a[|BaseName(k1)|..] == NatText(n1);
    assert b[|BaseName(k2)|..] == NatText(n2);
    NatTextInjective(n1, n2);
  }

  /** Two parameters a fabric hands out, at different counter states or of different kinds, never share a name. */
  lemma CreatedNamesDistinct(f1: Fabric, k1: Kind, f2: Fabric, k2: Kind)
    requires k1 != k2 || Counter(f1, k1) != Counter(f2, k2)
    ensures Create(f1, k1).1.name != Create(f2, k2).1.name
  {
    if Create(f1, k1).1.name == Create(f2, k2).1.name {
      NameDetermines(k1, Counter(f1, k1), k2, Counter(f2, k2));
    }
  }
}
