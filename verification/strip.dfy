/**
  Python's `str.strip`. `s.strip(chars)` is `s` with every leading and
  trailing character that belongs to `chars` removed; the argument-less
  `s.strip()` does the same with the characters `str.isspace()` accepts.
  The lemmas are stated for any character set, so they hold for both forms.
 */
module PyStr {

  /** The characters `str.isspace()` is true of: the set argument-less `strip()` removes. */
  const Whitespace: set<char> :=
    { '\t', '\n', '\U{000B}', '\U{000C}', '\r', '\U{001C}', '\U{001D}', '\U{001E}', '\U{001F}',
      ' ', '\U{0085}', '\U{00A0}', '\U{1680}',
      '\U{2000}', '\U{2001}', '\U{2002}', '\U{2003}', '\U{2004}', '\U{2005}',
      '\U{2006}', '\U{2007}', '\U{2008}', '\U{2009}', '\U{200A}',
      '\U{2028}', '\U{2029}', '\U{202F}', '\U{205F}', '\U{3000}' }

  /** Every character of `s` belongs to `chars`. */
  predicate AllIn(s: string, chars: set<char>) {
    forall k :: 0 <= k < |s| ==> s[k] in chars
  }

  /** Neither the first nor the last character of `s` belongs to `chars`. */
  predicate Trimmed(s: string, chars: set<char>) {
    s == [] || (s[0] !in chars && s[|s| - 1] !in chars)
  }

  /** `s.lstrip(chars)`. */
  function TrimLeft(s: string, chars: set<char>): (r: string)
    ensures |r| <= |s|
  {
    if |s| > 0 && s[0] in chars then TrimLeft(s[1..], chars) else s
  }

  /** `s.rstrip(chars)`. */
  function TrimRight(s: string, chars: set<char>): (r: string)
    ensures |r| <= |s|
  {
    if |s| > 0 && s[|s| - 1] in chars then TrimRight(s[..|s| - 1], chars) else s
  }

  /** `s.strip(chars)`. */
  function StripChars(s: string, chars: set<char>): (r: string)
    ensures |r| <= |s|
  {
    TrimRight(TrimLeft(s, chars), chars)
  }

  /** `s.strip()`. */
  function Strip(s: string): (r: string)
    ensures |r| <= |s|
  {
    StripChars(s, Whitespace)
  }

  /** `lstrip(chars)` keeps a suffix of `s` that does not start with a member of `chars`, and drops only members of `chars`. */
  lemma {:induction false} TrimLeftSpec(s: string, chars: set<char>)
    ensures var r := TrimLeft(s, chars);
            && r == s[|s| - |r|..]
            && AllIn(s[..|s| - |r|], chars)
            && (r == [] || r[0] !in chars)
  {
    if |s| > 0 && s[0] in chars {
      TrimLeftSpec(s[1..], chars);
    }
  }

  /** `rstrip(chars)` keeps a prefix of `s` that does not end with a member of `chars`, and drops only members of `chars`. */
  lemma {:induction false} TrimRightSpec(s: string, chars: set<char>)
    ensures var r := TrimRight(s, chars);
            && r == s[..|r|]
            && AllIn(s[|r|..], chars)
            && (r == [] || r[|r| - 1] !in chars)
  {
    if |s| > 0 && s[|s| - 1] in chars {
      TrimRightSpec(s[..|s| - 1], chars);
    }
  }

  /** The result of `strip(chars)` neither starts nor ends with a member of `chars`. */
  lemma StripTrims(s: string, chars: set<char>)
    ensures Trimmed(StripChars(s, chars), chars)
  {
    var t := TrimLeft(s, chars);
    TrimLeftSpec(s, chars);
    TrimRightSpec(t, chars);
    var r := TrimRight(t, chars);
    assert r != [] ==> r[0] == t[0];
  }

  /** `s.strip(chars)` is `s` with a run of `chars` members cut from each end: `s == left + r + right`. */
  lemma StripDecomposes(s: string, chars: set<char>) returns (left: string, right: string)
    ensures s == left + StripChars(s, chars) + right
    ensures AllIn(left, chars) && AllIn(right, chars)
  {
    var t := TrimLeft(s, chars);
    TrimLeftSpec(s, chars);
    TrimRightSpec(t, chars);
    var r := TrimRight(t, chars);
    left, right := s[..|s| - |t|], t[|r|..];
  }

  /** A string with nothing to strip is its own `strip(chars)`. */
  lemma StripTrimmed(s: string, chars: set<char>)
    requires Trimmed(s, chars)
    ensures StripChars(s, chars) == s
  {
  }

  /** `strip(chars)` is idempotent. */
  lemma StripIdempotent(s: string, chars: set<char>)
    ensures StripChars(StripChars(s, chars), chars) == StripChars(s, chars)
  {
    StripTrims(s, chars);
    StripTrimmed(StripChars(s, chars), chars);
  }

  /** A leading run of `chars` members never changes `lstrip(chars)`. */
  lemma {:induction false} TrimLeftPadded(pad: string, s: string, chars: set<char>)
    requires AllIn(pad, chars)
    ensures TrimLeft(pad + s, chars) == TrimLeft(s, chars)
  {
    if pad != [] {
      assert (pad + s)[1..] == pad[1..] + s;
      TrimLeftPadded(pad[1..], s, chars);
    } else {
      assert pad + s == s;
    }
  }

  /** A trailing run of `chars` members never changes `rstrip(chars)`. */
  lemma {:induction false} TrimRightPadded(s: string, pad: string, chars: set<char>)
    requires AllIn(pad, chars)
    ensures TrimRight(s + pad, chars) == TrimRight(s, chars)
  {
    if pad != [] {
      assert (s + pad)[..|s + pad| - 1] == s + pad[..|pad| - 1];
      TrimRightPadded(s, pad[..|pad| - 1], chars);
    } else {
      assert s + pad == s;
    }
  }

  /** `(s + tail).lstrip(chars)` keeps the whole tail once `s` has something left after stripping. */
  lemma {:induction false} TrimLeftAppend(s: string, tail: string, chars: set<char>)
    ensures TrimLeft(s + tail, chars)
            == if TrimLeft(s, chars) == [] then TrimLeft(tail, chars) else TrimLeft(s, chars) + tail
  {
    if s == [] {
      assert s + tail == tail;
    } else if s[0] in chars {
      assert (s + tail)[1..] == s[1..] + tail;
      TrimLeftAppend(s[1..], tail, chars);
    }
  }

  /**
    Strings that differ only in a surrounding run of `chars` members strip
    to the same string: `(left + s + right).strip(chars) == s.strip(chars)`.
   */
  lemma StripPadded(left: string, s: string, right: string, chars: set<char>)
    requires AllIn(left, chars) && AllIn(right, chars)
    ensures StripChars(left + s + right, chars) == StripChars(s, chars)
  {
    assert left + s + right == left + (s + right);
    TrimLeftPadded(left, s + right, chars);
    TrimLeftAppend(s, right, chars);
    var t := TrimLeft(s, chars);
    TrimLeftSpec(s, chars);
    if t == [] {
      assert right + [] == right;
      TrimLeftPadded(right, [], chars);
    } else {
      TrimRightPadded(t, right, chars);
    }
  }
}
