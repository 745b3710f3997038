/**
 * Numbers written with a fixed number of digits, and the order of strings. In
 * fixed width the order of the strings is the order of the numbers.
 */
module FixedWidth {
  import opened Base

  // ----- Lexicographic order

  predicate LexLess(s: string, t: string) {
    if t == "" then false
    else if s == "" then true
    else s[0] < t[0] || (s[0] == t[0] && LexLess(s[1..], t[1..]))
  }

  predicate LexLeq(s: string, t: string) {
    s == t || LexLess(s, t)
  }

  lemma {:induction false} LexIrreflexive(s: string)
    ensures !LexLess(s, s)
  {
    if s != "" {
      LexIrreflexive(s[1..]);
    }
  }

  lemma {:induction false} LexTransitive(s: string, t: string, u: string)
    requires LexLess(s, t) && LexLess(t, u)
    ensures LexLess(s, u)
  {
    if s != "" && s[0] == t[0] == u[0] {
      LexTransitive(s[1..], t[1..], u[1..]);
    }
  }

  lemma {:induction false} LexTotal(s: string, t: string)
    ensures LexLess(s, t) || s == t || LexLess(t, s)
  {
    if s != "" && t != "" && s[0] == t[0] {
      LexTotal(s[1..], t[1..]);
      assert s == [s[0]] + s[1..] && t == [t[0]] + t[1..];
    }
  }

  lemma LexAsymmetric(s: string, t: string)
    requires LexLess(s, t)
    ensures !LexLess(t, s) && s != t
  {
    if LexLess(t, s) {
      LexTransitive(s, t, s);
    }
    LexIrreflexive(s);
  }

  /** Strings whose heads have the same length are ordered by their heads first. */
  lemma {:induction false} LexConcat(s: string, t: string, u: string, v: string)
    requires |s| == |t|
    ensures LexLess(s + u, t + v) <==> LexLess(s, t) || (s == t && LexLess(u, v))
  {
    if s == "" {
      assert s + u == u && t + v == v;
    } else {
      assert (s + u)[1..] == s[1..] + u && (t + v)[1..] == t[1..] + v;
      assert s == [s[0]] + s[1..] && t == [t[0]] + t[1..];
      LexConcat(s[1..], t[1..], u, v);
    }
  }

  /** Two parts of a text with a separator between them. */
  function Join(a: string, separator: string, b: string): string {
    a + (separator + b)
  }

  /** Texts whose first parts have the same length are ordered by the first part, then by the second. */
  lemma JoinOrders(a: string, a': string, separator: string, b: string, b': string)
    requires |a| == |a'|
    ensures LexLess(Join(a, separator, b), Join(a', separator, b')) <==> LexLess(a, a') || (a == a' && LexLess(b, b'))
  {
    LexIrreflexive(separator);
    LexConcat(a, a', separator + b, separator + b');
    LexConcat(separator, separator, b, b');
  }

  // ----- Digits

  function DigitChar(d: nat): (c: char)
    requires d < 16
  {
    if d < 10 then ('0' as int + d) as char else ('A' as int + d - 10) as char
  }

  /** Digits are read in either case, as `from_str_radix` does. */
  function DigitValue(c: char): (d: Option<nat>)
    ensures d.Some? ==> d.value < 16
  {
    if '0' <= c <= '9' then Some(c as int - '0' as int)
    else if 'A' <= c <= 'F' then Some(c as int - 'A' as int + 10)
    else if 'a' <= c <= 'f' then Some(c as int - 'a' as int + 10)
    else None
  }

  lemma DigitRead(d: nat)
    requires d < 16
    ensures DigitValue(DigitChar(d)) == Some(d)
    ensures forall e: nat :: e < 16 ==> (DigitChar(d) < DigitChar(e) <==> d < e)
  {
  }

  datatype Radix = Dec | Hex {
    function Size(): nat {
      match this case Dec => 10 case Hex => 16
    }

    function Times(n: nat): nat {
      match this case Dec => 10 * n case Hex => 16 * n
    }

    /** All but the last digit of a number. */
    function Head(n: nat): nat {
      match this case Dec => n / 10 case Hex => n / 16
    }

    function LastDigit(n: nat): (d: nat)
      ensures d < Size()
      ensures n == Times(Head(n)) + d
    {
      match this case Dec => n % 10 case Hex => n % 16
    }

    /** How many numbers a width has room for. */
    function Room(width: nat): nat {
      if width == 0 then 1 else Times(Room(width - 1))
    }
  }

  /** The last `width` digits of a number. */
  function Digits(r: Radix, width: nat, n: nat): (s: string)
    ensures |s| == width
  {
    if width == 0 then "" else Digits(r, width - 1, r.Head(n)) + [DigitChar(r.LastDigit(n))]
  }

  /** The number a string of digits stands for; `None` when some character is not a digit of the radix. */
  function Value(r: Radix, s: string): Option<nat> {
    if s == "" then Some(0) else
      var head, digit := Value(r, s[..|s| - 1]), DigitValue(Last(s));
      if head.Some? && digit.Some? && digit.value < r.Size() then Some(r.Times(head.value) + digit.value) else None
  }

  /** A digit of the radix; hexadecimal ones can be of either case. */
  predicate IsDigit(r: Radix, c: char) {
    '0' <= c <= '9' || (r == Hex && ('A' <= c <= 'F' || 'a' <= c <= 'f'))
  }

  /** What is read as a number is exactly what consists of digits. */
  lemma {:induction false} ValueExactly(r: Radix, s: string)
    ensures Value(r, s).Some? <==> forall i :: 0 <= i < |s| ==> IsDigit(r, s[i])
  {
    if s != "" {
      ValueExactly(r, s[..|s| - 1]);
      assert forall i :: 0 <= i < |s| - 1 ==> s[..|s| - 1][i] == s[i];
      assert DigitValue(Last(s)).Some? && DigitValue(Last(s)).value < r.Size() <==> IsDigit(r, Last(s));
    }
  }

  /** A small letter is worth what its capital is. */
  lemma EitherCase(c: char)
    requires 'a' <= c <= 'f'
    ensures DigitValue(c) == DigitValue((c as int - 32) as char) && DigitValue(c) == Some(c as int - 87)
  {
  }

  lemma ValueOfDigit(r: Radix, s: string, d: nat)
    requires d < r.Size() && Value(r, s).Some?
    ensures Value(r, s + [DigitChar(d)]) == Some(r.Times(Value(r, s).value) + d)
  {
    DigitRead(d);
    assert (s + [DigitChar(d)])[..|s|] == s;
  }

  /** A number that fits the width is read back. */
  lemma {:induction false} DigitsRead(r: Radix, width: nat, n: nat)
    requires n < r.Room(width)
    ensures Value(r, Digits(r, width, n)) == Some(n)
  {
    if width > 0 {
      DigitsRead(r, width - 1, r.Head(n));
      ValueOfDigit(r, Digits(r, width - 1, r.Head(n)), r.LastDigit(n));
    }
  }

  /** In fixed width strings are ordered as the numbers are. */
  lemma {:induction false} DigitsOrdered(r: Radix, width: nat, m: nat, n: nat)
    requires m < r.Room(width) && n < r.Room(width)
    ensures LexLess(Digits(r, width, m), Digits(r, width, n)) <==> m < n
    ensures Digits(r, width, m) == Digits(r, width, n) <==> m == n
  {
    if width > 0 {
      DigitsOrdered(r, width - 1, r.Head(m), r.Head(n));
      LastDigitOrders(Digits(r, width - 1, r.Head(m)), Digits(r, width - 1, r.Head(n)), r.LastDigit(m), r.LastDigit(n));
    }
  }

  lemma LastDigitOrders(s: string, t: string, d: nat, e: nat)
    requires |s| == |t| && d < 16 && e < 16
    ensures LexLess(s + [DigitChar(d)], t + [DigitChar(e)]) <==> LexLess(s, t) || (s == t && d < e)
    ensures s + [DigitChar(d)] == t + [DigitChar(e)] <==> s == t && d == e
  {
    DigitRead(d);
    LexConcat(s, t, [DigitChar(d)], [DigitChar(e)]);
    if s + [DigitChar(d)] == t + [DigitChar(e)] {
      assert (s + [DigitChar(d)])[..|s|] == s && (t + [DigitChar(e)])[..|s|] == t;
      assert (s + [DigitChar(d)])[|s|] == DigitChar(d) && (t + [DigitChar(e)])[|s|] == DigitChar(e);
    }
  }

  // ----- Decimal numbers of any length

  function Decimal(n: nat): (s: string)
    ensures s != ""
  {
    if n < 10 then [DigitChar(n)] else Decimal(n / 10) + [DigitChar(n % 10)]
  }

  function Zeros(k: nat): (s: string)
    ensures |s| == k
  {
    seq(k, _ => '0')
  }

  function PadLeft(width: nat, s: string): string {
    if |s| < width then Zeros(width - |s|) + s else s
  }

  /** `{n:0width}`: zero-padded to a width that includes the sign. */
  function PadInt(width: nat, n: int): string {
    if n >= 0 then PadLeft(width, Decimal(n))
    else "-" + PadLeft(if width > 0 then width - 1 else 0, Decimal(-n))
  }

  lemma {:induction false} DecimalRead(n: nat)
    ensures Value(Dec, Decimal(n)) == Some(n)
    ensures forall i :: 0 <= i < |Decimal(n)| ==> '0' <= Decimal(n)[i] <= '9'
  {
    DigitRead(n % 10);
    if n >= 10 {
      DecimalRead(n / 10);
      var s := Decimal(n);
      assert s[..|s| - 1] == Decimal(n / 10);
    } else {
      assert [DigitChar(n)][..0] == "";
    }
  }

  /** Padding a number that fits gives exactly its fixed-width digits. */
  lemma {:induction false} PaddedIsDigits(width: nat, n: nat)
    requires width > 0 && n < Dec.Room(width)
    ensures PadInt(width, n) == Digits(Dec, width, n)
    ensures |Decimal(n)| <= width
  {
    if n >= 10 {
      PaddedIsDigits(width - 1, n / 10);
    } else {
      ZeroDigits(width - 1);
      assert Digits(Dec, width, n) == Digits(Dec, width - 1, 0) + [DigitChar(n)];
    }
  }

  // ----- Numbers of different lengths

  function Width(width: nat, n: nat): nat {
    |PadLeft(width, Decimal(n))|
  }

  /** A number without its last `k` digits. */
  function DropLast(n: nat, k: nat): nat {
    if k == 0 then n else DropLast(n / 10, k - 1)
  }

  /** A number is at most what the first digits of another, as many as it has itself, are. */
  predicate Precedes(width: nat, m: nat, n: nat) {
    Width(width, m) <= Width(width, n) && m <= DropLast(n, Width(width, n) - Width(width, m))
  }

  lemma {:induction false} DecimalFits(n: nat)
    ensures n < Dec.Room(|Decimal(n)|)
  {
    if n >= 10 {
      DecimalFits(n / 10);
    } else {
      assert Dec.Room(1) == 10;
    }
  }

  lemma {:induction false} RoomGrows(m: nat, n: nat)
    requires m <= n
    ensures Dec.Room(m) <= Dec.Room(n)
  {
    if m < n {
      RoomGrows(m, n - 1);
    }
  }

  lemma PaddedText(width: nat, n: nat)
    ensures n < Dec.Room(Width(width, n)) && PadLeft(width, Decimal(n)) == Digits(Dec, Width(width, n), n)
  {
    DecimalFits(n);
    RoomGrows(|Decimal(n)|, Width(width, n));
    PaddedIsDigits(Width(width, n), n);
  }

  lemma {:induction false} DecimalGrows(m: nat, n: nat)
    requires m <= n
    ensures |Decimal(m)| <= |Decimal(n)|
  {
    if m >= 10 {
      DecimalGrows(m / 10, n / 10);
    }
  }

  lemma {:induction false} SplitDigits(width: nat, k: nat, n: nat)
    requires k <= width && n < Dec.Room(width)
    ensures DropLast(n, k) < Dec.Room(width - k)
    ensures Digits(Dec, width, n) == Digits(Dec, width - k, DropLast(n, k)) + Digits(Dec, k, n)
  {
    if k > 0 {
      SplitDigits(width - 1, k - 1, n / 10);
    }
  }

  lemma {:induction false} DigitsAreDigits(width: nat, n: nat)
    ensures forall i :: 0 <= i < width ==> '0' <= Digits(Dec, width, n)[i] <= '9'
  {
    if width > 0 {
      DigitsAreDigits(width - 1, n / 10);
    }
  }

  /** Texts that begin with numbers of any length: what comes first after them is before any digit. */
  lemma NumbersBeforeHyphen(width: nat, m: nat, n: nat, u: string, v: string)
    requires m < n && u != "" && u[0] == '-'
    ensures LexLess(PadLeft(width, Decimal(m)) + u, PadLeft(width, Decimal(n)) + v) <==> Precedes(width, m, n)
    ensures LexLess(PadLeft(width, Decimal(n)) + v, PadLeft(width, Decimal(m)) + u) <==> !Precedes(width, m, n)
  {
    hide PadLeft, Decimal, LexLess;
    WidthGrows(width, m, n);
    var w, k := Width(width, m), Width(width, n) - Width(width, m);
    PaddedText(width, m);
    PaddedText(width, n);
    SplitDigits(w + k, k, n);
    DigitsAreDigits(k, n);
    DigitsOrdered(Dec, w, m, DropLast(n, k));
    DigitsOrdered(Dec, w, DropLast(n, k), m);
    HeadsFirst(Digits(Dec, w, m), Digits(Dec, w, DropLast(n, k)), Digits(Dec, k, n), u, v);
  }

  lemma WidthGrows(width: nat, m: nat, n: nat)
    requires m <= n
    ensures Width(width, m) <= Width(width, n)
  {
    DecimalGrows(m, n);
  }

  /** After a head of the same length a hyphen comes before more digits. */
  lemma HeadsFirst(s: string, head: string, rest: string, u: string, v: string)
    requires |s| == |head| && u != "" && u[0] == '-'
    requires (rest == "" ==> s != head) && forall i :: 0 <= i < |rest| ==> '0' <= rest[i]
    ensures LexLess(s + u, (head + rest) + v) <==> LexLess(s, head) || s == head
    ensures LexLess((head + rest) + v, s + u) <==> LexLess(head, s)
  {
    Regrouped(head, rest, v);
    LexConcat(s, head, u, rest + v);
    LexConcat(head, s, rest + v, u);
    if rest != "" {
      DigitAfterHyphen(u, rest, v);
    }
  }

  lemma Regrouped(a: string, b: string, c: string)
    ensures (a + b) + c == a + (b + c)
  {
  }

  lemma DigitAfterHyphen(u: string, rest: string, v: string)
    requires u != "" && rest != "" && u[0] == '-' && '0' <= rest[0]
    ensures LexLess(u, rest + v) && !LexLess(rest + v, u)
  {
    assert (rest + v)[0] == rest[0];
  }

  lemma {:induction false} ZeroDigits(width: nat)
    ensures Digits(Dec, width, 0) == Zeros(width)
  {
    if width > 0 {
      ZeroDigits(width - 1);
    }
  }
}
