/** Decimal numbers and splitting at a character, as strconv and strings do them. */
module Text {

  datatype Option<T> = None | Some(value: T)

  predicate IsDigit(c: char) {
    '0' <= c <= '9'
  }

  /** The decimal numeral of n, as %d prints it. */
  function Format(n: nat): (s: string)
    ensures s != "" && forall i :: 0 <= i < |s| ==> IsDigit(s[i])
  {
    (if n < 10 then "" else Format(n / 10)) + [('0' as int + n % 10) as char]
  }

  /** The value of a string of digits. */
  function Number(s: string): nat
    requires forall i :: 0 <= i < |s| ==> IsDigit(s[i])
  {
    if s == "" then 0 else assert IsDigit(s[|s| - 1]); 10 * Number(s[..|s| - 1]) + (s[|s| - 1] as int - '0' as int)
  }

  datatype Parsed = Num(n: nat) | BadSyntax | OutOfRange

  /** strconv.ParseUint in base 10, where max is the largest value of the bit size. */
  function ParseUint(s: string, max: nat): Parsed {
    if s == "" || !AllDigits(s) then BadSyntax
    else if Number(s) > max then OutOfRange
    else Num(Number(s))
  }

  predicate AllDigits(s: string) {
    forall i :: 0 <= i < |s| ==> IsDigit(s[i])
  }

  /** An optional sign and digits: strconv.ParseInt in base 10, and Python's int() of a token without spaces. */
  function ParseInt(s: string): Option<int> {
    var digits := if s != "" && (s[0] == '-' || s[0] == '+') then s[1..] else s;
    if digits == "" || !AllDigits(digits) then None
    else Some(if s[0] == '-' then 0 - Number(digits) as int else Number(digits))
  }

  lemma {:induction false} NumberOfFormat(n: nat)
    ensures Number(Format(n)) == n
  {
    var s := Format(n);
    assert s[|s| - 1] as int - '0' as int == n % 10;
    if n < 10 {
      assert s[..|s| - 1] == "";
    } else {
      assert s[..|s| - 1] == Format(n / 10);
      NumberOfFormat(n / 10);
    }
  }

  /** No needless zero in front. */
  lemma {:induction false} FormatStart(n: nat)
    ensures Format(n)[0] == '0' <==> n == 0
  {
    if n >= 10 { FormatStart(n / 10); }
  }

  lemma ParseFormat(n: nat, max: nat)
    ensures ParseUint(Format(n), max) == if n <= max then Num(n) else OutOfRange
  {
    NumberOfFormat(n);
  }

  lemma Associate<T>(a: seq<T>, b: seq<T>, c: seq<T>)
    ensures a + b + c == a + (b + c)
  {
  }

  // ---------- splitting ----------

  /** Position of the first c, or |s|. */
  function Find(s: string, c: char): (i: nat)
    ensures i <= |s|
    ensures i < |s| ==> s[i] == c
    ensures forall j :: 0 <= j < i ==> s[j] != c
  {
    if s == "" || s[0] == c then 0 else 1 + Find(s[1..], c)
  }

  lemma FindUnique(s: string, c: char, i: nat)
    requires i <= |s| && (i < |s| ==> s[i] == c) && forall j :: 0 <= j < i ==> s[j] != c
    ensures Find(s, c) == i
  {
  }

  /** The first c of `before + [c] + after` when `before` has none. */
  lemma FindAfter(before: string, c: char, after: string)
    requires c !in before
    ensures Find(before + [c] + after, c) == |before|
  {
    FindUnique(before + [c] + after, c, |before|);
  }

  lemma FindAbsent(s: string, c: char)
    requires c !in s
    ensures Find(s, c) == |s|
  {
  }

  lemma DigitsHaveNo(n: nat, c: char)
    requires !IsDigit(c)
    ensures c !in Format(n)
  {
  }
}
