/** The JavaScript values the validator and the controllers inspect, and the few
    language operations they rely on: truthiness, strict equality, conversion to a
    string (as in a template literal), conversion to a number, and `<`. */
module JsValues {

  datatype Option<T> = None | Some(value: T)

  /** A JavaScript value. Numbers are integers (no fractions, no NaN, no infinities).
      Arrays, plain objects and regular-expression objects carry `ref`, the identity
      of the object on the heap, which is what `===` compares for them. */
  datatype Value =
    | Undef
    | Null
    | Bool(b: bool)
    | Num(n: int)
    | Str(s: string)
    | Arr(ref: nat, elems: seq<Value>)
    | Obj(ref: nat, fields: map<string, Value>)
    | Pattern(ref: nat, source: string)

  /** How the host turns a string into a number (`+s`, `Number(s)`): `None` is NaN.
      Parsing numeric text is not modelled, so it is a parameter. */
  datatype Host = Host(parseNumber: string -> Option<int>)

  predicate IsObject(v: Value) {
    v.Arr? || v.Obj? || v.Pattern?
  }

  /** `!!v`: the falsy values are undefined, null, false, 0 and the empty string. */
  predicate Truthy(v: Value) {
    match v
    case Undef => false
    case Null => false
    case Bool(b) => b
    case Num(n) => n != 0
    case Str(s) => s != ""
    case _ => true
  }

  lemma FalsyValues(v: Value)
    ensures !Truthy(v) <==> v in {Undef, Null, Bool(false), Num(0), Str("")}
  {
  }

  /** `a === b`: value equality for primitives, identity for objects. */
  predicate StrictEq(a: Value, b: Value) {
    match (a, b)
    case (Arr(r1, _), Arr(r2, _)) => r1 == r2
    case (Obj(r1, _), Obj(r2, _)) => r1 == r2
    case (Pattern(r1, _), Pattern(r2, _)) => r1 == r2
    case _ => !IsObject(a) && !IsObject(b) && a == b
  }

  lemma StrictEqNeverAcrossKinds(a: Value, b: Value)
    requires StrictEq(a, b)
    ensures a.Str? <==> b.Str?
    ensures IsObject(a) <==> IsObject(b)
  {
  }

  function DigitChar(d: nat): (c: char)
    requires d < 10
    ensures '0' <= c <= '9' && c as int - '0' as int == d
  {
    ('0' as int + d) as char
  }

  predicate IsDecimalText(s: string) {
    forall i :: 0 <= i < |s| ==> '0' <= s[i] <= '9'
  }

  /** The number that decimal text denotes, read digit by digit as `Number(s)` reads it. */
  function DecimalValue(s: string): nat
    requires IsDecimalText(s)
    decreases |s|
  {
    if s == [] then 0 else DecimalValue(s[..|s| - 1]) * 10 + (s[|s| - 1] as int - '0' as int)
  }

  /** The decimal form of a natural number: digits that read back as the number, with no
      leading zero. */
  function NatToDecimal(n: nat): (s: string)
    ensures |s| >= 1 && IsDecimalText(s)
    ensures DecimalValue(s) == n
    ensures s[0] == '0' ==> n == 0
    decreases n
  {
    if n < 10 then
      var s := [DigitChar(n)];
      assert s[..0] == [];
      s
    else
      var head := NatToDecimal(n / 10);
      var s := head + [DigitChar(n % 10)];
      assert s[..|s| - 1] == head;
      s
  }

  /** `String(n)` for an integer. */
  function IntToDecimal(i: int): (s: string)
    ensures |s| >= 1
    ensures (s[0] == '-') <==> i < 0
    ensures i >= 0 ==> IsDecimalText(s) && DecimalValue(s) == i
    ensures i < 0 ==> IsDecimalText(s[1..]) && DecimalValue(s[1..]) == -i
  {
    assert i < 0 ==> ("-" + NatToDecimal(-i))[1..] == NatToDecimal(-i);
    if i < 0 then "-" + NatToDecimal(-i) else NatToDecimal(i)
  }

  /** `${ v }`: the text a template literal produces for `v`. An array is joined with
      commas, with undefined and null elements written as nothing. */
  function Stringify(v: Value): string
    decreases v, 1, 0
  {
    match v
    case Undef => "undefined"
    case Null => "null"
    case Bool(b) => if b then "true" else "false"
    case Num(n) => IntToDecimal(n)
    case Str(s) => s
    case Arr(_, elems) => JoinFrom(v, 0)
    case Obj(_, _) => "[object Object]"
    case Pattern(_, source) => "/" + source + "/"
  }

  /** The elements of the array `v` from index `i` on, joined by ",". */
  function JoinFrom(v: Value, i: nat): string
    requires v.Arr? && i <= |v.elems|
    decreases v, 0, |v.elems| - i
  {
    if i == |v.elems| then ""
    else
      var e := v.elems[i];
      var part := if e == Undef || e == Null then "" else Stringify(e);
      if i + 1 == |v.elems| then part else part + "," + JoinFrom(v, i + 1)
  }

  /** Object operands of `<` and `+` become strings first (ToPrimitive). */
  function ToPrimitive(v: Value): (p: Value)
    ensures !IsObject(p)
    ensures IsObject(v) ==> p == Str(Stringify(v))
    ensures !IsObject(v) ==> p == v
  {
    if IsObject(v) then Str(Stringify(v)) else v
  }

  /** `+v`; `None` is NaN. */
  function ToNumber(host: Host, v: Value): Option<int>
  {
    match ToPrimitive(v)
    case Undef => None
    case Null => Some(0)
    case Bool(b) => Some(if b then 1 else 0)
    case Num(n) => Some(n)
    case Str(s) => host.parseNumber(s)
    case _ => None
  }

  /** Lexicographic order of strings by character code, as `<` on two strings. */
  predicate StrLess(a: string, b: string)
    decreases |a|
  {
    if a == [] then b != []
    else if b == [] then false
    else if a[0] != b[0] then a[0] < b[0]
    else StrLess(a[1..], b[1..])
  }

  lemma {:induction false} StrLessIrreflexive(a: string)
    ensures !StrLess(a, a)
    decreases |a|
  {
    if a != [] {
      StrLessIrreflexive(a[1..]);
    }
  }

  /** `a < b` (the abstract relational comparison): two strings compare by character
      codes, anything else compares as numbers, and NaN compares false. */
  predicate JsLess(host: Host, a: Value, b: Value) {
    var pa, pb := ToPrimitive(a), ToPrimitive(b);
    if pa.Str? && pb.Str? then StrLess(pa.s, pb.s)
    else
      var na, nb := ToNumber(host, pa), ToNumber(host, pb);
      na.Some? && nb.Some? && na.value < nb.value
  }

  lemma JsLessNumbers(host: Host, x: int, y: int)
    ensures JsLess(host, Num(x), Num(y)) <==> x < y
  {
  }

  lemma {:induction false} JsLessIrreflexive(host: Host, v: Value)
    ensures !JsLess(host, v, v)
  {
    var p := ToPrimitive(v);
    if p.Str? {
      StrLessIrreflexive(p.s);
    }
  }

  /** What reading `v.length` gives: a TypeError on undefined and null, a number on
      strings, arrays and objects whose `length` property is a number, and otherwise a
      value that is not a number. */
  datatype LengthRead = Throws | NotNumeric | Length(n: int)

  function ReadLength(v: Value): (r: LengthRead)
    ensures r.Throws? <==> (v == Undef || v == Null)
    ensures v.Str? ==> r == Length(|v.s|)
    ensures v.Arr? ==> r == Length(|v.elems|)
  {
    match v
    case Undef => Throws
    case Null => Throws
    case Str(s) => Length(|s|)
    case Arr(_, elems) => Length(|elems|)
    case Obj(_, fields) =>
      if "length" in fields && fields["length"].Num? then Length(fields["length"].n) else NotNumeric
    case _ => NotNumeric
  }

  predicate OccursAt(needle: string, hay: string, i: int) {
    0 <= i <= |hay| - |needle| && hay[i..i + |needle|] == needle
  }

  ghost predicate IsSubstring(needle: string, hay: string) {
    exists i :: OccursAt(needle, hay, i)
  }

  /** `hay.includes(needle)`. */
  function Includes(hay: string, needle: string): (r: bool)
    ensures r <==> IsSubstring(needle, hay)
    decreases |hay|
  {
    if |needle| > |hay| then false
    else if hay[..|needle|] == needle then assert OccursAt(needle, hay, 0); true
    else
      SubstringOfTail(needle, hay);
      Includes(hay[1..], needle)
  }

  lemma SubstringOfTail(needle: string, hay: string)
    requires |needle| <= |hay| && hay[..|needle|] != needle
    ensures IsSubstring(needle, hay) <==> IsSubstring(needle, hay[1..])
  {
    if IsSubstring(needle, hay) {
      var i :| OccursAt(needle, hay, i);
      assert i != 0;
      assert OccursAt(needle, hay[1..], i - 1);
    }
    if IsSubstring(needle, hay[1..]) {
      var i :| OccursAt(needle, hay[1..], i);
      assert OccursAt(needle, hay, i + 1);
    }
  }

  /** `s.startsWith(prefix)`. */
  predicate StartsWith(s: string, prefix: string) {
    |prefix| <= |s| && s[..|prefix|] == prefix
  }

  /** `s.endsWith(suffix)`. */
  predicate EndsWith(s: string, suffix: string) {
    |suffix| <= |s| && s[|s| - |suffix|..] == suffix
  }

  lemma EndsWithConcat(head: string, tail: string)
    ensures EndsWith(head + tail, tail)
  {
    assert (head + tail)[|head|..] == tail;
  }

  /** `list.includes(v)` (SameValueZero, which is `===` when there is no NaN). */
  predicate ListIncludes(list: seq<Value>, v: Value) {
    exists i :: 0 <= i < |list| && StrictEq(list[i], v)
  }
}
