/**
 * The java.lang.String and Integer operations the JDBC client's parsers
 * rely on: trim, startsWith, endsWith, indexOf of a character, and
 * Integer.parseInt, over strings of Java chars. A Dafny char is a Unicode
 * scalar value, so it stands for a Java char outside the surrogate range;
 * strings holding surrogate code units are not modelled.
 */
module JavaStrings {
  import opened Wrappers

  const INT_MIN := -0x8000_0000
  const INT_MAX := 0x7fff_ffff

  const NUMBER_FORMAT := "NumberFormatException"

  /** String.trim treats every char up to and including ' ' as blank. */
  predicate Blank(c: char)
  {
    c <= ' '
  }

  /** The number of blank chars at the front of s. */
  function LeadingBlanks(s: string): (n: nat)
    ensures n <= |s|
    ensures forall k :: 0 <= k < n ==> Blank(s[k])
    ensures n < |s| ==> !Blank(s[n])
  {
    if |s| == 0 || !Blank(s[0]) then 0 else 1 + LeadingBlanks(s[1..])
  }

  /** The length of s without its blank chars at the back. */
  function TrailingEnd(s: string): (n: nat)
    ensures n <= |s|
    ensures forall k :: n <= k < |s| ==> Blank(s[k])
    ensures n > 0 ==> !Blank(s[n - 1])
  {
    if |s| == 0 || !Blank(s[|s| - 1]) then |s| else TrailingEnd(s[..|s| - 1])
  }

  /**
   * trim: s without its leading and trailing blanks; the result is a
   * slice of s, starts and ends with a non-blank char, and everything
   * outside it is blank.
   */
  function Trim(s: string): (r: string)
    ensures r == [] || (!Blank(r[0]) && !Blank(r[|r| - 1]))
    ensures r == [] ==> forall k :: 0 <= k < |s| ==> Blank(s[k])
    ensures r != [] ==> exists i :: Trimmed(s, i, r)
  {
    var i := LeadingBlanks(s);
    if i == |s| then []
    else
      var j := TrailingEnd(s);
      assert Trimmed(s, i, s[i..j]);
      s[i..j]
  }

  /** r sits at index i of s, with nothing but blanks before and after it. */
  predicate Trimmed(s: string, i: nat, r: string)
  {
    i + |r| <= |s| && s[i..i + |r|] == r
    && (forall k :: 0 <= k < i ==> Blank(s[k]))
    && (forall k :: i + |r| <= k < |s| ==> Blank(s[k]))
  }

  /** Trimming twice is trimming once. */
  lemma TrimIdempotent(s: string)
    ensures Trim(Trim(s)) == Trim(s)
  {
    var t := Trim(s);
    if t != [] {
      assert LeadingBlanks(t) == 0;
      assert TrailingEnd(t) == |t|;
      assert t[0..|t|] == t;
    }
  }

  /** Blanks added around a trimmed string are removed again. */
  lemma {:induction false} TrimStripsPadding(pre: string, s: string, post: string)
    requires forall k :: 0 <= k < |pre| ==> Blank(pre[k])
    requires forall k :: 0 <= k < |post| ==> Blank(post[k])
    requires s == [] || (!Blank(s[0]) && !Blank(s[|s| - 1]))
    ensures Trim(pre + s + post) == s
  {
    var w := pre + s + post;
    if s == [] {
      assert forall k :: 0 <= k < |w| ==> Blank(w[k]) by {
        forall k | 0 <= k < |w|
          ensures Blank(w[k])
        {
          if k < |pre| {
            assert w[k] == pre[k];
          } else {
            assert w[k] == post[k - |pre|];
          }
        }
      }
      LeadingAllBlank(w);
    } else {
      LeadingBefore(w, |pre|);
      TrailingAfter(w, |pre| + |s|);
      assert w[|pre|..|pre| + |s|] == s;
    }
  }

  lemma {:induction false} LeadingAllBlank(s: string)
    requires forall k :: 0 <= k < |s| ==> Blank(s[k])
    ensures LeadingBlanks(s) == |s|
  {
    if |s| > 0 {
      LeadingAllBlank(s[1..]);
    }
  }

  lemma {:induction false} LeadingBefore(s: string, n: nat)
    requires n < |s| && !Blank(s[n])
    requires forall k :: 0 <= k < n ==> Blank(s[k])
    ensures LeadingBlanks(s) == n
  {
    if n > 0 {
      LeadingBefore(s[1..], n - 1);
    }
  }

  lemma {:induction false} TrailingAfter(s: string, n: nat)
    requires 0 < n <= |s| && !Blank(s[n - 1])
    requires forall k :: n <= k < |s| ==> Blank(s[k])
    ensures TrailingEnd(s) == n
    decreases |s|
  {
    if n < |s| {
      TrailingAfter(s[..|s| - 1], n);
    }
  }

  predicate StartsWith(s: string, prefix: string)
  {
    prefix <= s
  }

  predicate EndsWith(s: string, suffix: string)
  {
    |suffix| <= |s| && s[|s| - |suffix|..] == suffix
  }

  /** indexOf(c): the first index of c in s, or -1. */
  function IndexOf(s: string, c: char): (r: int)
    ensures -1 <= r < |s|
    ensures r == -1 <==> c !in s
    ensures r >= 0 ==> s[r] == c && c !in s[..r]
  {
    if |s| == 0 then -1
    else if s[0] == c then 0
    else
      var r := IndexOf(s[1..], c);
      assert s == [s[0]] + s[1..];
      if r == -1 then -1
      else
        assert s[..r + 1] == [s[0]] + s[1..][..r];
        r + 1
  }

  // ---- decimal integers ---------------------------------------------------------

  predicate IsDigit(c: char)
  {
    '0' <= c <= '9'
  }

  predicate AllDigits(s: string)
  {
    forall k :: 0 <= k < |s| ==> IsDigit(s[k])
  }

  /** The value of a string of decimal digits, most significant first. */
  function DigitsValue(s: string): nat
    requires AllDigits(s)
  {
    if |s| == 0 then 0 else DigitsValue(s[..|s| - 1]) * 10 + (s[|s| - 1] - '0') as nat
  }

  /** The decimal digits of n without leading zeros, "0" for zero. */
  function NatText(n: nat): (r: string)
    ensures |r| > 0 && AllDigits(r)
    ensures |r| > 1 ==> r[0] != '0'
  {
    if n < 10 then [('0' as int + n) as char]
    else NatText(n / 10) + [('0' as int + n % 10) as char]
  }

  /** Reading the digits back gives the number. */
  lemma {:induction false} NatTextValue(n: nat)
    ensures DigitsValue(NatText(n)) == n
  {
    var t := NatText(n);
    if n >= 10 {
      NatTextValue(n / 10);
      assert t[..|t| - 1] == NatText(n / 10);
    }
  }

  /** Integer.toString for an int. */
  function IntText(n: int): string
  {
    if n < 0 then "-" + NatText(-n) else NatText(n)
  }

  /**
   * Integer.parseInt in base 10: an optional '-' or '+' sign, then at
   * least one digit, with a value inside the 32-bit range; anything else
   * throws NumberFormatException.
   */
  function ParseInt(s: string): (r: Result<int>)
    ensures r.Ok? ==> INT_MIN <= r.value <= INT_MAX
    ensures r.Err? ==> r.msg == NUMBER_FORMAT
    ensures r.Ok? <==>
      (|s| > 0 &&
       var d := if s[0] == '-' || s[0] == '+' then s[1..] else s;
       |d| > 0 && AllDigits(d) &&
       INT_MIN <= (if s[0] == '-' then -(DigitsValue(d) as int) else DigitsValue(d) as int) <= INT_MAX)
    ensures r.Ok? ==>
      r.value == (if s[0] == '-' then -(DigitsValue(s[1..]) as int)
                  else if s[0] == '+' then DigitsValue(s[1..]) as int
                  else DigitsValue(s) as int)
  {
    if |s| == 0 then Err(NUMBER_FORMAT)
    else
      var signed := s[0] == '-' || s[0] == '+';
      var digits := if signed then s[1..] else s;
      if |digits| == 0 || !AllDigits(digits) then Err(NUMBER_FORMAT)
      else
        var v: int := if s[0] == '-' then -(DigitsValue(digits) as int) else DigitsValue(digits) as int;
        if INT_MIN <= v <= INT_MAX then Ok(v) else Err(NUMBER_FORMAT)
  }

  /** Every int reads back from its decimal text. */
  lemma ParseIntText(n: int)
    requires INT_MIN <= n <= INT_MAX
    ensures ParseInt(IntText(n)) == Ok(n)
  {
    var t := IntText(n);
    if n < 0 {
      NatTextValue(-n);
      assert t[0] == '-' && t[1..] == NatText(-n);
    } else {
      NatTextValue(n);
      assert t == NatText(n) && IsDigit(t[0]);
    }
  }
}
