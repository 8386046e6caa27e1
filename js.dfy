/** The JavaScript built-ins the form validation relies on: form values as
    JavaScript holds them, the `\s` class and `String.prototype.trim`, the
    `replace(/\s/g, '')` idiom and `toLowerCase`. */
module Js {

  datatype Option<T> = None | Some(value: T)

  /** A form value: a string, a boolean, or `null`/`undefined`. */
  datatype Value = Text(s: string) | Flag(b: bool) | Nothing

  /** The characters ECMAScript counts as WhiteSpace or LineTerminator: what
      `trim()` strips and what the regular-expression class `\s` matches. */
  predicate IsWhitespace(c: char)
  {
    c == '\t' || c == '\n' || c == '\U{000B}' || c == '\U{000C}' || c == '\r' || c == ' '
    || c == '\U{00A0}' || c == '\U{1680}' || ('\U{2000}' <= c <= '\U{200A}')
    || c == '\U{2028}' || c == '\U{2029}' || c == '\U{202F}' || c == '\U{205F}'
    || c == '\U{3000}' || c == '\U{FEFF}'
  }

  /** The LineTerminator characters, which the regular-expression `.` does not match. */
  predicate IsLineTerminator(c: char)
  {
    c == '\n' || c == '\r' || c == '\U{2028}' || c == '\U{2029}'
  }

  predicate IsAsciiDigit(c: char) { '0' <= c <= '9' }
  predicate IsAsciiLower(c: char) { 'a' <= c <= 'z' }
  predicate IsAsciiUpper(c: char) { 'A' <= c <= 'Z' }
  predicate IsAsciiLetter(c: char) { IsAsciiLower(c) || IsAsciiUpper(c) }

  predicate NoWhitespace(s: string) { forall k :: 0 <= k < |s| ==> !IsWhitespace(s[k]) }
  predicate AllWhitespace(s: string) { forall k :: 0 <= k < |s| ==> IsWhitespace(s[k]) }

  /** Some character of `s` satisfies `p`. */
  predicate Contains(s: string, p: char -> bool) { exists k :: 0 <= k < |s| && p(s[k]) }

  /** `s` without its leading whitespace. */
  function TrimStart(s: string): (r: string)
    ensures |r| <= |s| && r == s[|s| - |r|..]
    ensures r == [] || !IsWhitespace(r[0])
    ensures AllWhitespace(s[..|s| - |r|])
  {
    if s != [] && IsWhitespace(s[0]) then TrimStart(s[1..]) else s
  }

  /** `s` without its trailing whitespace. */
  function TrimEnd(s: string): (r: string)
    ensures |r| <= |s| && r == s[..|r|]
    ensures r == [] || !IsWhitespace(r[|r| - 1])
    ensures AllWhitespace(s[|r|..])
  {
    if s != [] && IsWhitespace(s[|s| - 1]) then TrimEnd(s[..|s| - 1]) else s
  }

  /** Where `Trim(s)` starts inside `s`. */
  function TrimOffset(s: string): (a: nat)
    ensures a <= |s|
  {
    |s| - |TrimStart(s)|
  }

  /** `String.prototype.trim`: the slice of `s` left once the whitespace at
      both ends is removed. */
  function Trim(s: string): (r: string)
    ensures r == [] || (!IsWhitespace(r[0]) && !IsWhitespace(r[|r| - 1]))
    ensures TrimOffset(s) + |r| <= |s| && r == s[TrimOffset(s)..TrimOffset(s) + |r|]
    ensures AllWhitespace(s[..TrimOffset(s)]) && AllWhitespace(s[TrimOffset(s) + |r|..])
  {
    var t := TrimStart(s);
    var r := TrimEnd(t);
    assert s[|s| - |t| + |r|..] == t[|r|..];
    r
  }

  /** Only a string made entirely of whitespace trims to the empty string. */
  lemma TrimEmpty(s: string)
    ensures Trim(s) == [] <==> AllWhitespace(s)
  {
    var a := TrimOffset(s);
    if Trim(s) == [] {
      assert a == |s|;
      assert s[..a] == s;
    } else {
      assert Trim(s)[0] == s[a];
    }
  }

  /** `s.replace(/\s/g, '')`: the non-whitespace characters of `s`, in order. */
  function RemoveWhitespace(s: string): (r: string)
    ensures NoWhitespace(r)
    ensures |r| <= |s|
    ensures NoWhitespace(s) ==> r == s
  {
    if s == [] then []
    else if IsWhitespace(s[0]) then RemoveWhitespace(s[1..])
    else [s[0]] + RemoveWhitespace(s[1..])
  }

  /** The lower-case counterpart of a character: ASCII `A`-`Z` and the
      Latin-1 capitals U+00C0-U+00DE (except U+00D7) move up by 0x20. */
  function LowerChar(c: char): (d: char)
    ensures IsWhitespace(d) <==> IsWhitespace(c)
    ensures !IsAsciiUpper(d)
    ensures IsAsciiUpper(c) ==> d as int == c as int + 0x20
    ensures c < '\U{00C0}' && !IsAsciiUpper(c) ==> d == c
  {
    if IsAsciiUpper(c) || ('\U{00C0}' <= c <= '\U{00DE}' && c != '\U{00D7}')
    then (c as int + 0x20) as char
    else c
  }

  /** `String.prototype.toLowerCase`, character by character. */
  function ToLower(s: string): (r: string)
    ensures |r| == |s|
    ensures forall k :: 0 <= k < |r| ==> !IsAsciiUpper(r[k])
    ensures forall k :: 0 <= k < |s| ==> (IsWhitespace(r[k]) <==> IsWhitespace(s[k]))
    ensures forall k :: 0 <= k < |s| && IsAsciiUpper(s[k]) ==> r[k] as int == s[k] as int + 0x20
    ensures forall k :: 0 <= k < |s| && s[k] < '\U{00C0}' && !IsAsciiUpper(s[k]) ==> r[k] == s[k]
    ensures forall k :: 0 <= k < |s| && '\U{00C0}' <= s[k] <= '\U{00DE}' && s[k] != '\U{00D7}' ==>
      r[k] as int == s[k] as int + 0x20
    ensures forall k :: 0 <= k < |s| && (s[k] == '\U{00D7}' || s[k] > '\U{00DE}') ==> r[k] == s[k]
  {
    seq(|s|, k requires 0 <= k < |s| => LowerChar(s[k]))
  }

  lemma TrimStartNoop(s: string)
    requires s == [] || !IsWhitespace(s[0])
    ensures TrimStart(s) == s
  {
  }

  lemma TrimEndNoop(s: string)
    requires s == [] || !IsWhitespace(s[|s| - 1])
    ensures TrimEnd(s) == s
  {
  }

  /** Trimming a trimmed string changes nothing. */
  lemma TrimIdempotent(s: string)
    ensures Trim(Trim(s)) == Trim(s)
  {
    var r := Trim(s);
    TrimStartNoop(r);
    TrimEndNoop(r);
  }

  /** A trailing space survives `TrimStart` unless nothing else does. */
  lemma {:induction false} TrimStartOfSpaced(s: string)
    ensures TrimStart(s + " ") == if TrimStart(s) == [] then [] else TrimStart(s) + " "
  {
    if s != [] && IsWhitespace(s[0]) {
      assert (s + " ")[1..] == s[1..] + " ";
      TrimStartOfSpaced(s[1..]);
    }
  }

  /** `TrimEnd` strips a trailing space. */
  lemma TrimEndOfSpaced(s: string)
    ensures TrimEnd(s + " ") == TrimEnd(s)
  {
    assert (s + " ")[..|s|] == s;
  }

  /** `trim()` ignores a trailing space. */
  lemma TrimOfSpaced(s: string)
    ensures Trim(s + " ") == Trim(s)
  {
    TrimStartOfSpaced(s);
    TrimEndOfSpaced(TrimStart(s));
  }

  /** A string without whitespace is its own trim. */
  lemma TrimOfNoWhitespace(s: string)
    requires NoWhitespace(s)
    ensures Trim(s) == s
  {
    TrimStartNoop(s);
    TrimEndNoop(s);
  }

  lemma {:induction false} RemoveWhitespaceAppend(a: string, b: string)
    ensures RemoveWhitespace(a + b) == RemoveWhitespace(a) + RemoveWhitespace(b)
  {
    if a != [] {
      assert (a + b)[1..] == a[1..] + b;
      RemoveWhitespaceAppend(a[1..], b);
    } else {
      assert a + b == b;
    }
  }

  lemma {:induction false} RemoveWhitespaceOfAllWhitespace(s: string)
    requires AllWhitespace(s)
    ensures RemoveWhitespace(s) == []
  {
    if s != [] {
      RemoveWhitespaceOfAllWhitespace(s[1..]);
    }
  }

  /** A string is its three consecutive slices put back together. */
  lemma SplitThree(s: string, a: nat, b: nat)
    requires a <= b <= |s|
    ensures s == s[..a] + s[a..b] + s[b..]
  {
    assert s[..b] == s[..a] + s[a..b];
  }

  /** Whitespace around a string disappears with the whitespace in it. */
  lemma RemoveWhitespaceOfPadded(head: string, r: string, tail: string)
    requires AllWhitespace(head) && AllWhitespace(tail)
    ensures RemoveWhitespace(head + r + tail) == RemoveWhitespace(r)
  {
    calc {
      RemoveWhitespace(head + r + tail);
      { RemoveWhitespaceAppend(head + r, tail); }
      RemoveWhitespace(head + r) + RemoveWhitespace(tail);
      { RemoveWhitespaceAppend(head, r); }
      RemoveWhitespace(head) + RemoveWhitespace(r) + RemoveWhitespace(tail);
      { RemoveWhitespaceOfAllWhitespace(head); RemoveWhitespaceOfAllWhitespace(tail); }
      RemoveWhitespace(r);
    }
  }

  /** Removing every whitespace character makes a preceding trim redundant. */
  lemma RemoveWhitespaceIgnoresTrim(s: string)
    ensures RemoveWhitespace(Trim(s)) == RemoveWhitespace(s)
  {
    var r := Trim(s);
    var a := TrimOffset(s);
    SplitThree(s, a, a + |r|);
    RemoveWhitespaceOfPadded(s[..a], r, s[a + |r|..]);
  }

  /** Lower-casing twice is lower-casing once. */
  lemma ToLowerIdempotent(s: string)
    ensures ToLower(ToLower(s)) == ToLower(s)
  {
    forall k | 0 <= k < |s| ensures ToLower(ToLower(s))[k] == ToLower(s)[k] {
      var c := s[k];
      assert LowerChar(LowerChar(c)) == LowerChar(c);
    }
  }

  lemma {:induction false} TrimStartOfLower(s: string)
    ensures TrimStart(ToLower(s)) == ToLower(TrimStart(s))
  {
    if s != [] {
      assert ToLower(s)[1..] == ToLower(s[1..]);
      assert IsWhitespace(ToLower(s)[0]) == IsWhitespace(s[0]);
      TrimStartOfLower(s[1..]);
    }
  }

  lemma {:induction false} TrimEndOfLower(s: string)
    ensures TrimEnd(ToLower(s)) == ToLower(TrimEnd(s))
  {
    if s != [] {
      assert ToLower(s)[..|s| - 1] == ToLower(s[..|s| - 1]);
      assert IsWhitespace(ToLower(s)[|s| - 1]) == IsWhitespace(s[|s| - 1]);
      TrimEndOfLower(s[..|s| - 1]);
    }
  }

  /** Trimming and lower-casing commute, because lower-casing maps
      whitespace to whitespace and nothing else to whitespace. */
  lemma TrimOfLower(s: string)
    ensures Trim(ToLower(s)) == ToLower(Trim(s))
  {
    TrimStartOfLower(s);
    TrimEndOfLower(TrimStart(s));
  }

  /** `s.trim().toLowerCase()` is already trimmed, and applying it again
      changes nothing. */
  lemma TrimLowerIdempotent(s: string)
    ensures Trim(ToLower(Trim(s))) == ToLower(Trim(s))
    ensures ToLower(Trim(ToLower(Trim(s)))) == ToLower(Trim(s))
  {
    var e := Trim(s);
    TrimOfLower(e);
    TrimIdempotent(s);
    ToLowerIdempotent(e);
  }
}
