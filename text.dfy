/**
 * Character classes and string operations of Python's `str`, restricted to
 * ASCII, as the slugifier and the spreadsheet cleaner use them, and the
 * decimal rendering of an integer (`str(n)`, `f"{n}"`).
 */
module Text {

  predicate IsAscii(c: char) { c as int < 128 }

  predicate AllAscii(s: string) { forall i :: 0 <= i < |s| ==> IsAscii(s[i]) }

  /** `str.isspace` on ASCII: tab, line feed, vertical tab, form feed,
      carriage return, the separators 0x1C-0x1F and the space. It is also
      what `\s` matches in a `str` regular expression. */
  predicate IsSpace(c: char) { 9 <= c as int <= 13 || 28 <= c as int <= 32 }

  predicate IsUpper(c: char) { 'A' <= c <= 'Z' }

  predicate IsLower(c: char) { 'a' <= c <= 'z' }

  predicate IsDigit(c: char) { '0' <= c <= '9' }

  /** `str.isalpha` on ASCII. */
  predicate IsAlpha(c: char) { IsUpper(c) || IsLower(c) }

  /** What `\w` matches on ASCII. */
  predicate IsWord(c: char) { IsAlpha(c) || IsDigit(c) || c == '_' }

  /** `str.lower` on one ASCII character. */
  function ToLower(c: char): (r: char)
    ensures !IsUpper(r)
    ensures IsUpper(c) ==> IsLower(r) && r as int == c as int + 32
    ensures !IsUpper(c) ==> r == c
  {
    if IsUpper(c) then (c as int + 32) as char else c
  }

  /** `str.lower` on an ASCII string. */
  function Lower(s: string): (r: string)
    ensures |r| == |s|
    ensures forall i :: 0 <= i < |s| ==> r[i] == ToLower(s[i])
  {
    seq(|s|, i requires 0 <= i < |s| => ToLower(s[i]))
  }

  /** The characters a strip removes: `str.strip()` removes whitespace,
      `str.strip('_')` underscores. */
  datatype Stripping = Whitespace | Underscores

  predicate Drops(k: Stripping, c: char)
  {
    match k
    case Whitespace => IsSpace(c)
    case Underscores => c == '_'
  }

  /** `str.lstrip` of the characters `k` names. */
  function StripLeft(s: string, k: Stripping): (r: string)
    ensures |r| <= |s| && r == s[|s| - |r|..]
    ensures r != [] ==> !Drops(k, r[0])
  {
    if s != [] && Drops(k, s[0]) then StripLeft(s[1..], k) else s
  }

  /** Everything `str.lstrip` cuts off is a dropped character. */
  lemma {:induction false} StripLeftDrops(s: string, k: Stripping)
    ensures forall i :: 0 <= i < |s| - |StripLeft(s, k)| ==> Drops(k, s[i])
  {
    if s != [] && Drops(k, s[0]) {
      var rest := s[1..];
      StripLeftDrops(rest, k);
      assert StripLeft(s, k) == StripLeft(rest, k);
      forall i | 0 <= i < |s| - |StripLeft(s, k)| ensures Drops(k, s[i]) {
        if i > 0 {
          assert s[i] == rest[i - 1];
        }
      }
    }
  }

  /** `str.rstrip` of the characters `k` names. */
  function StripRight(s: string, k: Stripping): (r: string)
    ensures |r| <= |s| && r == s[..|r|]
    ensures r != [] ==> !Drops(k, r[|r| - 1])
  {
    if s != [] && Drops(k, s[|s| - 1]) then StripRight(s[..|s| - 1], k) else s
  }

  /** Everything `str.rstrip` cuts off is a dropped character. */
  lemma {:induction false} StripRightDrops(s: string, k: Stripping)
    ensures forall i :: |StripRight(s, k)| <= i < |s| ==> Drops(k, s[i])
  {
    if s != [] && Drops(k, s[|s| - 1]) {
      StripRightDrops(s[..|s| - 1], k);
    }
  }

  /** `str.strip` of the characters `k` names: neither end of the
      result is a dropped character. */
  function Strip(s: string, k: Stripping): (r: string)
    ensures |r| <= |s|
    ensures r != [] ==> !Drops(k, r[0]) && !Drops(k, r[|r| - 1])
  {
    StripRight(StripLeft(s, k), k)
  }

  /** The result of `Strip` is a slice `s[lo..hi]`, everything cut off on
      either side being dropped characters. */
  lemma StripIsSlice(s: string, k: Stripping) returns (lo: nat, hi: nat)
    ensures lo <= hi <= |s| && Strip(s, k) == s[lo..hi]
    ensures forall i :: 0 <= i < lo ==> Drops(k, s[i])
    ensures forall i :: hi <= i < |s| ==> Drops(k, s[i])
  {
    var left := StripLeft(s, k);
    var r := StripRight(left, k);
    lo := |s| - |left|;
    hi := lo + |r|;
    StripLeftDrops(s, k);
    StripRightDrops(left, k);
    forall j | 0 <= j < |left| ensures left[j] == s[lo + j] {
    }
    assert r == s[lo..hi];
    forall i | hi <= i < |s| ensures Drops(k, s[i]) {
      assert s[i] == left[i - lo];
    }
  }

  /** Text with no dropped character at either end is left as it is. */
  lemma StripKeepsUnstripped(s: string, k: Stripping)
    requires s != [] ==> !Drops(k, s[0]) && !Drops(k, s[|s| - 1])
    ensures Strip(s, k) == s
  {
  }

  /** The decimal digit character of `d`. */
  function DigitChar(d: nat): (c: char)
    requires d < 10
    ensures IsDigit(c) && c as int - '0' as int == d
  {
    ('0' as int + d) as char
  }

  /** `str(n)` for a non-negative integer: decimal digits, most significant
      first, no leading zero. */
  function NatToString(n: nat): (s: string)
    ensures |s| >= 1
    ensures forall i :: 0 <= i < |s| ==> IsDigit(s[i])
    ensures s[0] == '0' ==> n == 0
    decreases n
  {
    if n < 10 then [DigitChar(n)] else NatToString(n / 10) + [DigitChar(n % 10)]
  }

  /** `str(i)` for any integer: a minus sign before the digits of a
      negative number. */
  function IntToString(i: int): (s: string)
    ensures |s| >= 1
    ensures i < 0 ==> s[0] == '-' && s[1..] == NatToString(-i)
    ensures i >= 0 ==> s == NatToString(i)
  {
    if i < 0 then "-" + NatToString(-i) else NatToString(i)
  }
}
