/**
 * The JavaScript value semantics the controllers lean on: truthiness of request
 * fields (`!x`), the `||` fallback, `Number(x)` on ids, and `String.prototype.trim`.
 */
module JsValues {
  import opened Wrappers

  /**
   * A request value that carries an id, as Express hands it to a handler: absent
   * (undefined), a string (query strings and multipart fields are always strings)
   * or an integer from a JSON body. A JSON `null` behaves as `Missing` here only
   * because every handler rejects a falsy id before it calls `Number()` on it.
   */
  datatype Field = Missing | Text(s: string) | Num(n: int)

  /** JavaScript truthiness of an id field: `undefined`, `""` and `0` are falsy. */
  predicate Truthy(f: Field) {
    match f
    case Missing => false
    case Text(s) => s != ""
    case Num(n) => n != 0
  }

  /** JavaScript truthiness of a text field, absent or a string. */
  predicate Present(t: Option<string>) {
    t.Some? && t.value != ""
  }

  /** `a || b`: the first operand when it is truthy, the second otherwise. */
  function Or(a: Field, b: Field): (r: Field)
    ensures Truthy(r) <==> Truthy(a) || Truthy(b)
    ensures Truthy(a) ==> r == a
    ensures !Truthy(a) ==> r == b
  {
    if Truthy(a) then a else b
  }

  // ---------------------------------------------------------------------------
  // Decimal numerals

  predicate IsDigit(c: char) {
    '0' <= c <= '9'
  }

  predicate AllDigits(s: string) {
    forall i | 0 <= i < |s| :: IsDigit(s[i])
  }

  /** The value of a string of decimal digits, most significant first. */
  function DigitsValue(s: string): nat
    requires AllDigits(s)
  {
    if s == [] then 0 else DigitsValue(s[..|s| - 1]) * 10 + (s[|s| - 1] as int - '0' as int)
  }

  /**
   * `Number(s)` for a string, restricted to integer numerals: an optional sign
   * followed by at least one digit. Every other string is treated as NaN.
   */
  function Numeral(s: string): (r: Option<int>)
    ensures r.Some? <==> (|s| > 0 && AllDigits(s)) || (|s| > 1 && (s[0] == '-' || s[0] == '+') && AllDigits(s[1..]))
  {
    if |s| > 0 && AllDigits(s) then Some(DigitsValue(s))
    else if |s| > 1 && (s[0] == '-' || s[0] == '+') && AllDigits(s[1..]) then
      Some(if s[0] == '-' then -(DigitsValue(s[1..]) as int) else DigitsValue(s[1..]))
    else None
  }

  /**
   * `Number(f)` for an id field; `None` stands for NaN. The same value is what
   * the SQL engine compares an id column with when `f` is bound as a parameter.
   */
  function NumberOf(f: Field): (r: Option<int>)
    ensures f.Num? ==> r == Some(f.n)
    ensures f.Text? ==> r == Numeral(f.s)
    ensures f.Missing? ==> r == None
  {
    match f
    case Missing => None
    case Text(s) => Numeral(s)
    case Num(n) => Some(n)
  }

  /** The decimal digits of a natural number. */
  function Digits(n: nat): (s: string)
    ensures |s| > 0 && AllDigits(s)
  {
    if n < 10 then [('0' as int + n) as char] else Digits(n / 10) + [('0' as int + n % 10) as char]
  }

  /** `String(n)`: how a client spells an integer id in a query string. */
  function Decimal(n: int): string {
    if n < 0 then "-" + Digits(-n) else Digits(n)
  }

  lemma {:induction false} DigitsValueOfDigits(n: nat)
    ensures DigitsValue(Digits(n)) == n
  {
    var s := Digits(n);
    if n >= 10 {
      DigitsValueOfDigits(n / 10);
      assert s[..|s| - 1] == Digits(n / 10);
    }
  }

  /** Reading back the decimal spelling of an id gives the id. */
  lemma NumeralOfDecimal(n: int)
    ensures Numeral(Decimal(n)) == Some(n)
    ensures Truthy(Text(Decimal(n)))
  {
    if n < 0 {
      var d := Digits(-n);
      DigitsValueOfDigits(-n);
      assert Decimal(n)[1..] == d;
      assert !IsDigit(Decimal(n)[0]);
    } else {
      DigitsValueOfDigits(n);
    }
  }

  // ---------------------------------------------------------------------------
  // String.prototype.trim

  /** The characters `trim` removes: ECMAScript WhiteSpace and LineTerminator. */
  predicate IsSpace(c: char) {
    || c == '\t' || c == '\n' || c == '\U{B}' || c == '\U{C}' || c == '\r' || c == ' '
    || c == '\U{A0}' || c == '\U{1680}' || ('\U{2000}' <= c <= '\U{200A}')
    || c == '\U{2028}' || c == '\U{2029}' || c == '\U{202F}' || c == '\U{205F}'
    || c == '\U{3000}' || c == '\U{FEFF}'
  }

  predicate AllSpace(s: string) {
    forall i | 0 <= i < |s| :: IsSpace(s[i])
  }

  /** The length of the white-space prefix of `s`. */
  function Lead(s: string): (n: nat)
    ensures n <= |s|
    ensures forall j | 0 <= j < n :: IsSpace(s[j])
    ensures n < |s| ==> !IsSpace(s[n])
  {
    if s != [] && IsSpace(s[0]) then
      var n := 1 + Lead(s[1..]);
      assert forall j | 1 <= j < n :: s[j] == s[1..][j - 1];
      n
    else 0
  }

  /** Where the white-space suffix of `s` starts. */
  function End(s: string): (e: nat)
    ensures e <= |s|
    ensures forall j | e <= j < |s| :: IsSpace(s[j])
    ensures 0 < e ==> !IsSpace(s[e - 1])
  {
    if s != [] && IsSpace(s[|s| - 1]) then
      var e := End(s[..|s| - 1]);
      assert forall j | e <= j < |s| - 1 :: s[j] == s[..|s| - 1][j];
      e
    else |s|
  }

  /**
   * `s.trim()`: `s` without its white-space prefix and suffix. What is kept
   * sits between that prefix and a suffix of white space, neither starts nor
   * ends with white space, and is empty exactly when `s` is all white space.
   */
  function Trim(s: string): (r: string)
    ensures Lead(s) + |r| <= |s| && r == s[Lead(s)..Lead(s) + |r|]
    ensures forall j | Lead(s) + |r| <= j < |s| :: IsSpace(s[j])
    ensures r != [] ==> !IsSpace(r[0]) && !IsSpace(r[|r| - 1])
    ensures r == [] <==> AllSpace(s)
  {
    var i := Lead(s);
    if i == |s| then ""
    else
      var e := End(s);
      assert i < e;
      s[i..e]
  }

  /** Trimming twice is trimming once. */
  lemma TrimIdempotent(s: string)
    ensures Trim(Trim(s)) == Trim(s)
  {
    var r := Trim(s);
    if r != [] {
      assert Lead(r) == 0;
      assert End(r) == |r|;
    }
  }
}
