/** Decoded record values and the three JavaScript operations the engine
    applies to them: strict equality, relational comparison and `String()`. */
module Values {

  /** A field value of a decoded record. `Undefined` is what reading a
      missing field yields (and what `pluck` stores for it). */
  datatype Value = Str(s: string) | Int(n: int) | Bool(b: bool) | Null | Undefined

  /** A loaded record. `id` is its position in the loaded sequence and
      stands for the object's identity: two rows are the same element
      exactly when they are the same loaded object. */
  datatype Row = Row(id: nat, fields: map<string, Value>)

  /** `row[key]`. */
  function Get(row: Row, key: string): Value {
    if key in row.fields then row.fields[key] else Undefined
  }

  /** The UTF-16 code units of one character: itself below U+10000,
      otherwise a high and a low surrogate. */
  function CodeUnits(c: char): (u: seq<int>)
    ensures |u| == 1 <==> (c as int) < 0x1_0000
    ensures |u| == 1 ==> u[0] == c as int
    ensures |u| == 2 ==> 0xD800 <= u[0] < 0xDC00 <= u[1] < 0xE000
    ensures |u| == 2 ==> (u[0] - 0xD800) * 0x400 + (u[1] - 0xDC00) + 0x1_0000 == c as int
  {
    var n := c as int;
    if n < 0x1_0000 then [n]
    else [0xD800 + (n - 0x1_0000) / 0x400, 0xDC00 + (n - 0x1_0000) % 0x400]
  }

  /** A JavaScript string is a sequence of UTF-16 code units. */
  function Utf16(s: string): seq<int> {
    if |s| == 0 then [] else CodeUnits(s[0]) + Utf16(s[1..])
  }

  /** Lexicographic order on code-unit sequences, a proper prefix first. */
  predicate UnitsLess(a: seq<int>, b: seq<int>) {
    if |a| == 0 then |b| > 0
    else if |b| == 0 then false
    else if a[0] != b[0] then a[0] < b[0]
    else UnitsLess(a[1..], b[1..])
  }

  /** `a < b` on strings: JavaScript compares their UTF-16 code units, not
      their code points. */
  predicate StrLess(a: string, b: string) {
    UnitsLess(Utf16(a), Utf16(b))
  }

  /** `a > b` between two values of the same kind: numbers numerically,
      strings by UTF-16 code units, `true > false`. Values of different kinds,
      `null` and `undefined` are never greater. */
  predicate Greater(a: Value, b: Value) {
    match (a, b)
    case (Int(x), Int(y)) => x > y
    case (Str(x), Str(y)) => StrLess(y, x)
    case (Bool(x), Bool(y)) => x && !y
    case _ => false
  }

  /** `a < b` is evaluated by JavaScript as `b > a`. */
  predicate Less(a: Value, b: Value) {
    Greater(b, a)
  }

  lemma {:induction false} UnitsLessIrreflexive(a: seq<int>)
    ensures !UnitsLess(a, a)
  {
    if |a| > 0 {
      UnitsLessIrreflexive(a[1..]);
    }
  }

  lemma {:induction false} UnitsLessTransitive(a: seq<int>, b: seq<int>, c: seq<int>)
    requires UnitsLess(a, b) && UnitsLess(b, c)
    ensures UnitsLess(a, c)
  {
    if |a| > 0 && |b| > 0 && |c| > 0 && a[0] == b[0] && b[0] == c[0] {
      UnitsLessTransitive(a[1..], b[1..], c[1..]);
    }
  }

  lemma {:induction false} UnitsLessAsymmetric(a: seq<int>, b: seq<int>)
    requires UnitsLess(a, b)
    ensures !UnitsLess(b, a)
  {
    if |a| > 0 && |b| > 0 && a[0] == b[0] {
      UnitsLessAsymmetric(a[1..], b[1..]);
    }
  }

  /** A character above U+FFFF sorts below one in U+E000..U+FFFF, because its
      high surrogate does: code-unit order is not code-point order. */
  lemma SupplementaryBelowHighBmp(a: char, b: char)
    requires (a as int) >= 0x1_0000 && 0xE000 <= (b as int) < 0x1_0000
    ensures Greater(Str([b]), Str([a])) && !Greater(Str([a]), Str([b]))
  {
    assert Utf16([a]) == CodeUnits(a);
    assert Utf16([b]) == CodeUnits(b);
  }

  /** `>` is a strict partial order on values: irreflexive and transitive
      (hence asymmetric). */
  lemma GreaterIrreflexive(a: Value)
    ensures !Greater(a, a)
  {
    if a.Str? {
      UnitsLessIrreflexive(Utf16(a.s));
    }
  }

  lemma GreaterTransitive(a: Value, b: Value, c: Value)
    requires Greater(a, b) && Greater(b, c)
    ensures Greater(a, c)
  {
    if a.Str? {
      UnitsLessTransitive(Utf16(c.s), Utf16(b.s), Utf16(a.s));
    }
  }

  lemma GreaterAsymmetric(a: Value, b: Value)
    requires Greater(a, b)
    ensures !Greater(b, a)
  {
    if a.Str? {
      UnitsLessAsymmetric(Utf16(b.s), Utf16(a.s));
    }
  }

  function DigitChar(d: nat): char
    requires d < 10
  {
    "0123456789"[d]
  }

  /** Decimal form of a natural number, without leading zeros. */
  function NatToString(n: nat): (r: string)
    ensures |r| > 0
    ensures forall i :: 0 <= i < |r| ==> '0' <= r[i] <= '9'
    ensures r[0] == '0' ==> n == 0
  {
    if n < 10 then [DigitChar(n)] else NatToString(n / 10) + [DigitChar(n % 10)]
  }

  /** Value of a string of decimal digits. */
  function DigitsValue(s: string): nat
    requires forall i :: 0 <= i < |s| ==> '0' <= s[i] <= '9'
  {
    if |s| == 0 then 0
    else 10 * DigitsValue(s[..|s| - 1]) + (s[|s| - 1] - '0') as nat
  }

  /** Reading back the decimal form gives the number. */
  lemma {:induction false} NatToStringRoundTrip(n: nat)
    ensures DigitsValue(NatToString(n)) == n
  {
    if n >= 10 {
      NatToStringRoundTrip(n / 10);
      var r := NatToString(n);
      assert r[..|r| - 1] == NatToString(n / 10);
    }
  }

  lemma NatToStringInjective(m: nat, n: nat)
    requires NatToString(m) == NatToString(n)
    ensures m == n
  {
    NatToStringRoundTrip(m);
    NatToStringRoundTrip(n);
  }

  /** `String(n)` for an integer. */
  function IntToString(n: int): (r: string)
    ensures |r| > 0
    ensures r[0] == '-' <==> n < 0
  {
    if n < 0 then "-" + NatToString(-n) else NatToString(n)
  }

  /** `String(v)`. */
  function Stringify(v: Value): string {
    match v
    case Str(s) => s
    case Int(n) => IntToString(n)
    case Bool(b) => if b then "true" else "false"
    case Null => "null"
    case Undefined => "undefined"
  }

  /** Two numbers have the same string form exactly when they are equal. */
  lemma StringifyInt(m: int, n: int)
    ensures Stringify(Int(m)) == Stringify(Int(n)) <==> m == n
  {
    if Stringify(Int(m)) == Stringify(Int(n)) {
      IntToStringInjective(m, n);
    }
  }

  lemma IntToStringInjective(m: int, n: int)
    requires IntToString(m) == IntToString(n)
    ensures m == n
  {
    var s := IntToString(m);
    if m < 0 {
      assert n < 0;
      assert NatToString(-m) == s[1..] == NatToString(-n);
      NatToStringInjective(-m, -n);
    } else {
      assert n >= 0;
      NatToStringInjective(m, n);
    }
  }
}
