/** The string operations of Python that the hydrograph uses, restricted to
    ASCII: decimal digits and int()/str() on them, slicing with Python's
    clamping rules, str.index for one character and str.title. */
module Text {
  import opened Outcomes

  predicate IsDigit(c: char) { '0' <= c <= '9' }

  predicate IsDigits(s: string) { forall i :: 0 <= i < |s| ==> IsDigit(s[i]) }

  function DigitValue(c: char): nat
    requires IsDigit(c)
  {
    c as int - '0' as int
  }

  function DigitChar(n: nat): (c: char)
    requires n < 10
    ensures IsDigit(c) && DigitValue(c) == n
  {
    ('0' as int + n) as char
  }

  function Pow10(w: nat): (p: nat)
    ensures p >= 1
  {
    if w == 0 then 1 else 10 * Pow10(w - 1)
  }

  /** The number a string of decimal digits denotes, most significant first. */
  function DigitsValue(s: string): nat
    requires IsDigits(s)
  {
    if s == [] then 0 else DigitsValue(s[..|s| - 1]) * 10 + DigitValue(s[|s| - 1])
  }

  /** The last `width` decimal digits of `n`, with leading zeros:
      what `%04d`-style formatting and strftime's `%m`, `%d`, `%H` produce. */
  function ZeroPad(n: nat, width: nat): (r: string)
    ensures |r| == width && IsDigits(r)
  {
    if width == 0 then "" else ZeroPad(n / 10, width - 1) + [DigitChar(n % 10)]
  }

  /** Python's str() of a non-negative int: no leading zeros. */
  function NatToString(n: nat): (r: string)
    ensures |r| >= 1 && IsDigits(r)
  {
    if n < 10 then [DigitChar(n)] else NatToString(n / 10) + [DigitChar(n % 10)]
  }

  /** Python's str() of an int. */
  function IntToString(i: int): string
  {
    if i < 0 then "-" + NatToString(-i) else NatToString(i)
  }

  /** Python's int() on a string, restricted to ASCII decimal digits. */
  function ParseInt(s: string): (r: Result<int>)
    ensures r.Ok? <==> |s| > 0 && IsDigits(s)
    ensures r.Err? ==> r.error == InvalidDate
  {
    if |s| > 0 && IsDigits(s) then Ok(DigitsValue(s)) else Err(InvalidDate)
  }

  lemma {:induction false} DigitsValueAppend(s: string, c: char)
    requires IsDigits(s) && IsDigit(c)
    ensures IsDigits(s + [c]) && DigitsValue(s + [c]) == DigitsValue(s) * 10 + DigitValue(c)
  {
    assert (s + [c])[..|s|] == s;
  }

  lemma {:induction false} DigitsValueBound(s: string)
    requires IsDigits(s)
    ensures DigitsValue(s) < Pow10(|s|)
  {
    if s != [] {
      DigitsValueBound(s[..|s| - 1]);
    }
  }

  /** Zero-padding and reading the digits back are inverse to each other. */
  lemma {:induction false} ZeroPadValue(n: nat, width: nat)
    requires n < Pow10(width)
    ensures DigitsValue(ZeroPad(n, width)) == n
  {
    if width > 0 {
      ZeroPadValue(n / 10, width - 1);
      DigitsValueAppend(ZeroPad(n / 10, width - 1), DigitChar(n % 10));
    }
  }

  lemma {:induction false} ZeroPadOfValue(s: string)
    requires IsDigits(s)
    ensures ZeroPad(DigitsValue(s), |s|) == s
  {
    if s != [] {
      var init, c := s[..|s| - 1], s[|s| - 1];
      ZeroPadOfValue(init);
      var v := DigitsValue(s);
      assert v / 10 == DigitsValue(init) && v % 10 == DigitValue(c);
      assert DigitChar(DigitValue(c)) == c;
      assert s == init + [c];
    }
  }

  /** For a number of exactly `width` digits, str() and zero-padding agree. */
  lemma {:induction false} NatToStringIsPadded(n: nat, width: nat)
    requires width >= 1 && Pow10(width - 1) <= n < Pow10(width)
    ensures NatToString(n) == ZeroPad(n, width)
  {
    if width > 1 {
      assert Pow10(width - 2) <= n / 10 < Pow10(width - 1);
      NatToStringIsPadded(n / 10, width - 1);
    }
  }

  lemma {:induction false} NatToStringLength(n: nat, width: nat)
    requires n < Pow10(width)
    ensures |NatToString(n)| <= if width == 0 then 1 else width
  {
    if n >= 10 {
      NatToStringLength(n / 10, width - 1);
    }
  }

  // ---------------------------------------------------------------------------
  // Slicing with Python's rules: an index past the end is clamped.

  function Min(a: int, b: int): int { if a <= b then a else b }

  /** s[:n] */
  function Take(s: string, n: nat): (r: string)
    ensures |r| == Min(n, |s|) && r == s[..|r|]
  {
    s[..Min(n, |s|)]
  }

  /** s[n:] */
  function Drop(s: string, n: nat): (r: string)
    ensures |r| == |s| - Min(n, |s|) && r == s[Min(n, |s|)..]
  {
    s[Min(n, |s|)..]
  }

  /** s[i:j] for non-negative i and j: empty when j <= i. */
  function Slice(s: string, i: nat, j: nat): (r: string)
    ensures j <= |s| && i <= j ==> r == s[i..j]
    ensures j <= i ==> r == ""
  {
    Drop(Take(s, j), i)
  }

  /** s[:-n] */
  function DropLast(s: string, n: nat): (r: string)
    ensures |r| == if |s| <= n then 0 else |s| - n
    ensures r == s[..|r|]
  {
    if |s| <= n then "" else s[..|s| - n]
  }

  /** s[-n:] */
  function TakeLast(s: string, n: nat): (r: string)
    ensures |r| == Min(n, |s|)
    ensures r == s[|s| - |r|..]
  {
    if |s| <= n then s else s[|s| - n..]
  }

  /** s.index(c): the position of the first occurrence of c, or ValueError. */
  function IndexOf(s: string, c: char): (r: Result<nat>)
    ensures r.Ok? ==> r.value < |s| && s[r.value] == c && forall k :: 0 <= k < r.value ==> s[k] != c
    ensures r.Err? ==> r.error == SubstringNotFound && forall k :: 0 <= k < |s| ==> s[k] != c
  {
    if s == [] then Err(SubstringNotFound)
    else if s[0] == c then Ok(0)
    else
      match IndexOf(s[1..], c)
      case Ok(k) => Ok(k + 1)
      case Err(e) => Err(e)
  }

  // ---------------------------------------------------------------------------
  // str.title on ASCII: a letter that follows a letter is lower-cased, any
  // other letter is upper-cased, and every other character is kept.

  predicate IsUpper(c: char) { 'A' <= c <= 'Z' }

  predicate IsLower(c: char) { 'a' <= c <= 'z' }

  predicate IsLetter(c: char) { IsUpper(c) || IsLower(c) }

  function ToUpper(c: char): char
  {
    if IsLower(c) then (c as int - 32) as char else c
  }

  function ToLower(c: char): char
  {
    if IsUpper(c) then (c as int + 32) as char else c
  }

  /** The title-cased form of s, where `afterLetter` says whether the
      character before s[0] was a letter. */
  function TitleFrom(s: string, afterLetter: bool): (r: string)
    ensures |r| == |s|
  {
    if s == [] then ""
    else
      var c := s[0];
      [if !IsLetter(c) then c else if afterLetter then ToLower(c) else ToUpper(c)]
        + TitleFrom(s[1..], IsLetter(c))
  }

  function Title(s: string): (r: string)
    ensures |r| == |s|
  {
    TitleFrom(s, false)
  }

  /** The case rule of str.title, character by character. */
  ghost function TitleChar(s: string, k: nat): char
    requires k < |s|
  {
    if !IsLetter(s[k]) then s[k]
    else if k > 0 && IsLetter(s[k - 1]) then ToLower(s[k])
    else ToUpper(s[k])
  }

  lemma {:induction false} TitleFromAt(s: string, afterLetter: bool, k: nat)
    requires k < |s|
    ensures TitleFrom(s, afterLetter)[k] ==
      if !IsLetter(s[k]) then s[k]
      else if (if k == 0 then afterLetter else IsLetter(s[k - 1])) then ToLower(s[k])
      else ToUpper(s[k])
  {
    if k > 0 {
      TitleFromAt(s[1..], IsLetter(s[0]), k - 1);
    }
  }

  lemma TitleAt(s: string, k: nat)
    requires k < |s|
    ensures Title(s)[k] == TitleChar(s, k)
  {
    TitleFromAt(s, false, k);
  }

  /** Title-casing twice is the same as title-casing once. */
  lemma TitleIdempotent(s: string)
    ensures Title(Title(s)) == Title(s)
  {
    var t := Title(s);
    forall k | 0 <= k < |s|
      ensures Title(t)[k] == t[k]
    {
      TitleAt(s, k);
      TitleAt(t, k);
      if k > 0 {
        TitleAt(s, k - 1);
      }
    }
  }
}
