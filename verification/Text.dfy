/** Byte strings as the C code sees them.  A byte is a `char`, a byte string a `string`. */
module Text {

  const BUFFER_SIZE := 4096
  const CRLF := "\r\n"
  const FINAL := "\r\n.\r\n"

  datatype Option<+T> = None | Some(value: T) {
    predicate IsFailure() {
      None?
    }

    function PropagateFailure<U>(): Option<U>
      requires None?
    {
      None
    }

    function Extract(): T
      requires Some?
    {
      value
    }
  }

  /** The C string at the start of `s`: everything before the first NUL. */
  function CStr(s: string): (r: string)
    ensures r <= s && '\0' !in r
    ensures |r| < |s| ==> s[|r|] == '\0'
    ensures r == s <==> '\0' !in s
  {
    if s == "" || s[0] == '\0' then "" else
    var r := [s[0]] + CStr(s[1..]);
    assert s == [s[0]] + s[1..];
    r
  }

  function Flatten(pieces: seq<string>): string
    decreases |pieces|
  {
    if pieces == [] then "" else pieces[0] + Flatten(pieces[1..])
  }

  /** `toupper` in the C locale. */
  function Upper(c: char): char {
    if 'a' <= c <= 'z' then 'A' + (c - 'a') else c
  }

  function UpperAll(s: string): string {
    seq(|s|, i requires 0 <= i < |s| => Upper(s[i]))
  }

  const TWO_32 := 0x1_0000_0000
  const TWO_31 := 0x8000_0000

  /** The value an `int` holds after being assigned `n`. */
  function ToInt32(n: int): (r: int)
    ensures -TWO_31 <= r < TWO_31
    ensures (r - n) % TWO_32 == 0
  {
    (n + TWO_31) % TWO_32 - TWO_31
  }

  /** `%d` */
  function Dec(n: int): (s: string)
    ensures s != ""
    decreases if n < 0 then 1 - n else n
  {
    if n < 0 then "-" + Dec(-n)
    else if n < 10 then [Digit(n)]
    else Dec(n / 10) + [Digit(n % 10)]
  }

  function Digit(d: int): char
    requires 0 <= d < 10
  {
    '0' + d as char
  }

  function Pow10(k: nat): (r: nat)
    ensures r > 0
  {
    if k == 0 then 1 else 10 * Pow10(k - 1)
  }

  lemma {:induction false} DecLength(n: nat, k: nat)
    requires k > 0 && n < Pow10(k)
    ensures |Dec(n)| <= k
  {
    if n >= 10 {
      assert k > 1;
      DecLength(n / 10, k - 1);
    }
  }

  /** An `int` prints in at most eleven bytes. */
  lemma {:induction false} DecInt32Length(n: int)
    ensures |Dec(ToInt32(n))| <= 11
  {
    var v := ToInt32(n);
    assert Pow10(10) == 10_000_000_000 by {
      assert Pow10(2) == 100;
      assert Pow10(4) == 10_000;
      assert Pow10(6) == 1_000_000;
      assert Pow10(8) == 100_000_000;
    }
    DecLength(if v < 0 then -v else v, 10);
  }

  predicate IsDigit(c: char) {
    '0' <= c <= '9'
  }

  predicate IsSpace(c: char) {
    c == ' ' || '\t' <= c <= '\r'
  }

  /** `atoi`: white space, a sign, digits; the result is truncated to an `int`. */
  function Atoi(s: string): int {
    if s != "" && IsSpace(s[0]) then Atoi(s[1..])
    else if s != "" && s[0] == '-' then ToInt32(0 - Digits(s[1..], 0))
    else if s != "" && s[0] == '+' then ToInt32(Digits(s[1..], 0))
    else ToInt32(Digits(s, 0))
  }

  function Digits(s: string, acc: nat): nat
    decreases |s|
  {
    if s == "" || !IsDigit(s[0]) then acc
    else Digits(s[1..], 10 * acc + s[0] as nat - '0' as nat)
  }

  // ----- what printing and reading numbers means -----

  /** The number that decimal digits stand for. */
  function Val(digits: string): nat
    requires AllDigits(digits)
    decreases |digits|
  {
    if digits == "" then 0 else 10 * Val(digits[..|digits| - 1]) + (digits[|digits| - 1] as nat - '0' as nat)
  }

  predicate AllDigits(s: string) {
    forall i :: 0 <= i < |s| ==> IsDigit(s[i])
  }

  /** A printed number reads back: digits only, none too many. */
  lemma {:induction false} DecReads(n: nat)
    ensures AllDigits(Dec(n)) && Val(Dec(n)) == n
    ensures Dec(n)[0] == '0' <==> Dec(n) == "0"
    ensures Dec(n) == "0" <==> n == 0
    decreases n
  {
    if n >= 10 {
      DecReads(n / 10);
      var d := Dec(n / 10);
      assert Dec(n)[..|Dec(n)| - 1] == d && Dec(n)[0] == d[0];
    } else {
      assert Dec(n)[..0] == "";
    }
  }

  lemma {:induction false} DecNegative(n: nat)
    requires n > 0
    ensures Dec(0 - n) == "-" + Dec(n)
  {
  }

  /** Digits are read to their end, onto what has been read. */
  lemma {:induction false} DigitsRead(before: string, digits: string, rest: string)
    requires AllDigits(before) && AllDigits(digits) && (rest == "" || !IsDigit(rest[0]))
    ensures AllDigits(before + digits) && Digits(digits + rest, Val(before)) == Val(before + digits)
    decreases |digits|
  {
    if digits == "" {
      assert digits + rest == rest && before + digits == before;
    } else {
      var next := before + [digits[0]];
      assert next[..|before|] == before;
      assert (digits + rest)[1..] == digits[1..] + rest && next + digits[1..] == before + digits;
      DigitsRead(next, digits[1..], rest);
    }
  }

  /** `atoi` reads white space, a sign and digits, up to anything else. */
  lemma {:induction false} AtoiReads(space: string, sign: string, digits: string, rest: string)
    requires (forall i :: 0 <= i < |space| ==> IsSpace(space[i])) && sign in {"", "-", "+"}
    requires AllDigits(digits) && digits != "" && (rest == "" || !IsDigit(rest[0]))
    ensures Atoi(space + (sign + (digits + rest))) == ToInt32(if sign == "-" then 0 - Val(digits) else Val(digits))
    decreases |space|
  {
    var s := sign + (digits + rest);
    if space == "" {
      assert space + s == s && "" + digits == digits;
      DigitsRead("", digits, rest);
      assert sign == "" ==> s == digits + rest;
      assert sign != "" ==> s[0] == sign[0] && s[1..] == digits + rest;
    } else {
      assert (space + s)[1..] == space[1..] + s;
      AtoiReads(space[1..], sign, digits, rest);
    }
  }

  /** Anything else reads as 0. */
  lemma {:induction false} AtoiOfOther(s: string)
    requires s == "" || !(IsSpace(s[0]) || IsDigit(s[0]) || s[0] == '-' || s[0] == '+')
    ensures Atoi(s) == 0
  {
  }

  /** `atoi` undoes `%d`. */
  lemma {:induction false} AtoiOfDec(n: int)
    requires -TWO_31 <= n < TWO_31
    ensures Atoi(Dec(n)) == n
  {
    var m := if n < 0 then -n else n;
    DecReads(m);
    var sign := if n < 0 then "-" else "";
    AtoiReads("", sign, Dec(m), "");
    assert "" + (sign + (Dec(m) + "")) == Dec(n);
  }

  lemma {:induction false} SpacesAre(c: char)
    ensures IsSpace(c) <==> c in " \t\n\r\U{000B}\U{000C}"
  {
  }

  const LOWER := "abcdefghijklmnopqrstuvwxyz"
  const UPPER := "ABCDEFGHIJKLMNOPQRSTUVWXYZ"

  /** `toupper` changes the letters of the one alphabet into those of the other, and nothing else. */
  lemma {:induction false} UpperIs(c: char)
    ensures forall i :: 0 <= i < |LOWER| && c == LOWER[i] ==> Upper(c) == UPPER[i]
    ensures c !in LOWER ==> Upper(c) == c
  {
    LowerAt(c);
  }

  lemma {:induction false} LowerAt(c: char)
    ensures 'a' <= c <= 'z' ==> c in LOWER
    ensures |LOWER| == |UPPER| == 26
    ensures forall i :: 0 <= i < 26 ==> LOWER[i] == 'a' + i as char && UPPER[i] == 'A' + i as char
  {
    if 'a' <= c <= 'z' {
      assert LOWER[(c - 'a') as int] == c;
    }
  }
}
