/**
 * Parsed JSON values as Python's `json` module hands them to the application,
 * and the few Python built-ins the application applies to them: `dict.get`,
 * iteration (`for x in v`) and `int(v)`.
 */
module JsonValues {
  import opened Wrappers
  import Text

  datatype Json =
    | JNull
    | JBool(b: bool)
    | JInt(i: int)
    | JReal(r: real)             // a finite float
    | JInfinity(negative: bool)  // `Infinity`, `-Infinity`, or a literal beyond the float range
    | JNaN                       // `NaN`
    | JString(s: string)
    | JArray(items: seq<Json>)
    | JObject(fields: seq<(string, Json)>)

  /** The Python exceptions the modelled code can raise on a JSON value. */
  datatype PyError = TypeError | AttributeError | ValueError | OverflowError

  /** Python truthiness: `null`, `false`, zero, and empty strings, lists and objects are false; infinities and NaN are true. */
  predicate TruthyValue(v: Json) {
    match v
    case JNull => false
    case JBool(b) => b
    case JInt(i) => i != 0
    case JReal(r) => r != 0.0
    case JInfinity(_) => true
    case JNaN => true
    case JString(s) => s != []
    case JArray(items) => items != []
    case JObject(fields) => fields != []
  }

  /** `d.get(key)` on a decoded object: a repeated member name keeps its last value. */
  function Lookup(fields: seq<(string, Json)>, key: string): (r: Option<Json>)
    ensures r.None? <==> forall i :: 0 <= i < |fields| ==> fields[i].0 != key
    ensures r.Some? ==> exists i :: 0 <= i < |fields| && fields[i] == (key, r.value)
                                  && forall j :: i < j < |fields| ==> fields[j].0 != key
  {
    if |fields| == 0 then None
    else
      var n := |fields| - 1;
      if fields[n].0 == key then
        assert fields[n] == (key, fields[n].1);
        Some(fields[n].1)
      else
        var prefix := fields[..n];
        var r := Lookup(prefix, key);
        assert r.None? ==> forall i :: 0 <= i < |fields| ==> fields[i].0 != key by {
          if r.None? {
            forall i | 0 <= i < |fields| ensures fields[i].0 != key {
              if i < n { assert fields[i] == prefix[i]; }
            }
          }
        }
        assert r.Some? ==> exists i :: 0 <= i < |fields| && fields[i] == (key, r.value)
                                     && forall j :: i < j < |fields| ==> fields[j].0 != key by {
          if r.Some? {
            var i :| 0 <= i < |prefix| && prefix[i] == (key, r.value)
                     && forall j :: i < j < |prefix| ==> prefix[j].0 != key;
            assert fields[i] == prefix[i];
            forall j | i < j < |fields| ensures fields[j].0 != key {
              if j < n { assert fields[j] == prefix[j]; }
            }
          }
        }
        r
  }

  /** `d.get(key, default)` on a value already known to be a dict. */
  function Get(fields: seq<(string, Json)>, key: string, default: Json): (r: Json)
    ensures (forall i :: 0 <= i < |fields| ==> fields[i].0 != key) ==> r == default
  {
    Lookup(fields, key).GetOr(default)
  }

  /** A one-member object `{key: value}`. */
  function Singleton(key: string, value: Json): Json {
    JObject([(key, value)])
  }

  /**
   * The elements `for x in v` visits: list items, dict keys, or the
   * one-character strings of a string; anything else is not iterable.
   */
  function Iterate(v: Json): (r: Result<seq<Json>, PyError>)
    ensures r.Err? <==> !(v.JArray? || v.JObject? || v.JString?)
    ensures v.JArray? ==> r == Ok(v.items)
    ensures v.JObject? ==> r.Ok? && |r.value| == |v.fields|
    ensures v.JString? ==> r.Ok? && |r.value| == |v.s|
  {
    match v
    case JArray(items) => Ok(items)
    case JObject(fields) => Ok(seq(|fields|, i requires 0 <= i < |fields| => JString(fields[i].0)))
    case JString(s) => Ok(seq(|s|, i requires 0 <= i < |s| => JString([s[i]])))
    case _ => Err(TypeError)
  }

  /** Truncation toward zero, as `int()` applies it to a float. */
  function TruncateReal(x: real): (r: int)
    ensures x >= 0.0 ==> r as real <= x < r as real + 1.0
    ensures x < 0.0 ==> r as real - 1.0 < x <= r as real
  {
    if x >= 0.0 then x.Floor else -((-x).Floor)
  }

  /**
   * A run of decimal digits in which single underscores may separate two
   * digits, as `int()` accepts them (PEP 515): no underscore at either end,
   * none doubled.
   */
  predicate DigitRun(s: string) {
    s != [] && Text.IsDigit(s[0]) && Text.IsDigit(s[|s| - 1]) && DigitsOrUnderscores(s)
    && forall i :: 0 <= i < |s| && s[i] == '_' ==> i + 1 < |s| && Text.IsDigit(s[i + 1])
  }

  predicate DigitsOrUnderscores(s: string) {
    forall i :: 0 <= i < |s| ==> Text.IsDigit(s[i]) || s[i] == '_'
  }

  /** The digits of a run, its underscores dropped. */
  function Digits(s: string): (r: string)
    requires DigitsOrUnderscores(s)
    ensures forall i :: 0 <= i < |r| ==> Text.IsDigit(r[i])
    ensures (forall i :: 0 <= i < |s| ==> Text.IsDigit(s[i])) ==> r == s
    ensures |r| <= |s|
  {
    if |s| == 0 then []
    else
      var init := Digits(s[..|s| - 1]);
      if s[|s| - 1] == '_' then init else init + [s[|s| - 1]]
  }

  /** The value of an optionally signed digit run, or None. */
  function ParseSignedDecimal(s: string): (r: Option<int>)
    ensures s == [] ==> r.None?
    ensures r.Some? ==> s != [] && (Text.IsDigit(s[0]) || s[0] == '-' || s[0] == '+')
  {
    if |s| > 0 && (s[0] == '-' || s[0] == '+') then
      var body := s[1..];
      if DigitRun(body) then
        var magnitude: int := Text.ParseDigits(Digits(body));
        Some(if s[0] == '-' then -magnitude else magnitude)
      else None
    else if DigitRun(s) then Some(Text.ParseDigits(Digits(s)))
    else None
  }

  /**
   * `int(v)` for a decoded JSON value: an infinity raises OverflowError and
   * NaN raises ValueError.
   */
  function IntOf(v: Json): (r: Result<int, PyError>)
    ensures v.JInt? ==> r == Ok(v.i)
    ensures v.JBool? ==> r == Ok(if v.b then 1 else 0)
    ensures v.JNull? || v.JArray? || v.JObject? ==> r == Err(TypeError)
    ensures v.JString? && r.Err? ==> r.error == ValueError
    ensures r == Err(OverflowError) <==> v.JInfinity?
    ensures v.JNaN? ==> r == Err(ValueError)
  {
    match v
    case JInt(i) => Ok(i)
    case JBool(b) => Ok(if b then 1 else 0)
    case JReal(x) => Ok(TruncateReal(x))
    case JInfinity(_) => Err(OverflowError)
    case JNaN => Err(ValueError)
    case JString(s) =>
      var parsed := ParseSignedDecimal(Text.Strip(s));
      if parsed.Some? then Ok(parsed.value) else Err(ValueError)
    case _ => Err(TypeError)
  }

  /** The rendering of an integer is an optionally signed run of digits with that value. */
  lemma ParseSignedRendering(i: int)
    ensures ParseSignedDecimal(Text.IntToString(i)) == Some(i)
  {
    var s := Text.IntToString(i);
    var m: nat := if i < 0 then -i else i;
    var digits := Text.NatToString(m);
    Text.ParseNatToString(m);
    assert DigitRun(digits);
    if i < 0 {
      assert s[1..] == digits;
    } else {
      assert s == digits;
      assert Text.IsDigit(s[0]);
    }
  }

  /** Dropping underscores distributes over concatenation. */
  lemma {:induction false} DigitsAppend(x: string, y: string)
    requires DigitsOrUnderscores(x) && DigitsOrUnderscores(y)
    ensures DigitsOrUnderscores(x + y)
    ensures Digits(x + y) == Digits(x) + Digits(y)
    decreases |y|
  {
    if y == [] {
      assert x + y == x;
    } else {
      var init := y[..|y| - 1];
      assert (x + y)[..|x + y| - 1] == x + init;
      DigitsAppend(x, init);
    }
  }

  /** All digits, at least one. */
  predicate AllDigits(a: string) {
    a != [] && forall i :: 0 <= i < |a| ==> Text.IsDigit(a[i])
  }

  lemma DigitRunOfDigits(a: string)
    requires AllDigits(a)
    ensures DigitRun(a) && Digits(a) == a
  {
  }

  lemma JoinedGroupsRun(a: string, b: string)
    requires AllDigits(a) && AllDigits(b)
    ensures DigitRun(a + "_" + b)
  {
    var s := a + "_" + b;
    assert forall i :: 0 <= i < |a| ==> s[i] == a[i];
    assert forall i :: |a| < i < |s| ==> s[i] == b[i - |a| - 1];
    assert s[|a|] == '_' && s[|a| + 1] == b[0];
  }

  lemma JoinedGroupsDigits(a: string, b: string)
    requires AllDigits(a) && AllDigits(b)
    ensures DigitsOrUnderscores(a + "_" + b) && Digits(a + "_" + b) == a + b
  {
    assert a + "_" + b == (a + "_") + b;
    assert (a + "_")[..|a|] == a;
    DigitRunOfDigits(a);
    DigitRunOfDigits(b);
    assert Digits(a + "_") == a;
    DigitsAppend(a + "_", b);
  }

  /**
   * A single underscore between two groups of digits is ignored:
   * `int("1_000") == int("1000")`.
   */
  lemma UnderscoreSeparatedDigits(a: string, b: string)
    requires AllDigits(a) && AllDigits(b)
    ensures ParseSignedDecimal(a + "_" + b) == ParseSignedDecimal(a + b) == Some(Text.ParseDigits(a + b))
  {
    JoinedGroupsRun(a, b);
    JoinedGroupsDigits(a, b);
    assert AllDigits(a + b) by {
      assert forall i :: 0 <= i < |a| ==> (a + b)[i] == a[i];
      assert forall i :: |a| <= i < |a + b| ==> (a + b)[i] == b[i - |a|];
    }
    DigitRunOfDigits(a + b);
    assert (a + "_" + b)[0] == a[0];
  }

  /** A doubled underscore is rejected, as is one at either end. */
  lemma MisplacedUnderscoreRejected()
    ensures ParseSignedDecimal("1__0").None?
    ensures ParseSignedDecimal("_1").None? && ParseSignedDecimal("1_").None?
  {
    assert "1__0"[1] == '_' && "1__0"[2] == '_';
  }

  /** `int(str(i)) == i`: the integer rendering parses back to the same integer. */
  lemma IntOfRendering(i: int)
    ensures IntOf(JString(Text.IntToString(i))) == Ok(i)
  {
    var s := Text.IntToString(i);
    var digits := Text.NatToString(if i < 0 then -i else i);
    assert s[|s| - 1] == digits[|digits| - 1];
    Text.StripOfTrimmed(s);
    ParseSignedRendering(i);
  }
}
