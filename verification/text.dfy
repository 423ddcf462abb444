/**
 The text normaliser: deleting fixed ASCII character sets, ASCII lower-casing, and the
 splitting and stripping operations of Python strings that the indexer relies on.
 */
module Text {

  /** The 32 characters of Python's `string.punctuation`. */
  const Punctuation: string := "!\"#$%&'()*+,-./:;<=>?@[\\]^_`{|}~"

  /** The characters of Python's `string.digits`. */
  const Digits: string := "0123456789"

  /** Membership in `string.punctuation`, written as the four ASCII ranges it covers. */
  predicate IsPunctuation(c: char) {
    '!' <= c <= '/' || ':' <= c <= '@' || '[' <= c <= '`' || '{' <= c <= '~'
  }

  /** Membership in `string.digits`. */
  predicate IsDigit(c: char) {
    '0' <= c <= '9'
  }

  predicate IsPunctuationOrDigit(c: char) {
    IsPunctuation(c) || IsDigit(c)
  }

  predicate IsBlank(c: char) {
    c == ' '
  }

  predicate IsHyphen(c: char) {
    c == '-'
  }

  /** The characters Python's `str.isspace` accepts; `str.split()` and `str.strip()` use them. */
  predicate IsSpace(c: char) {
    || c == ' ' || '\t' <= c <= '\r' || '\U{1C}' <= c <= '\U{1F}' || c == '\U{85}' || c == '\U{A0}'
    || c == '\U{1680}' || '\U{2000}' <= c <= '\U{200A}' || c == '\U{2028}' || c == '\U{2029}'
    || c == '\U{202F}' || c == '\U{205F}' || c == '\U{3000}'
  }

  predicate IsUpper(c: char) {
    'A' <= c <= 'Z'
  }

  /** The range predicates accept exactly the characters of the two constants. */
  lemma CharacterClassesMatchConstants()
    ensures forall c :: IsPunctuation(c) <==> c in Punctuation
    ensures forall c :: IsDigit(c) <==> c in Digits
  {
  }

  /** Deletion by translation table: `s` with every character that `drop` accepts deleted, the rest kept in order. */
  function Remove(s: string, drop: char -> bool): (r: string)
    ensures forall c :: c in r ==> c in s && !drop(c)
    ensures forall c :: !drop(c) ==> multiset(r)[c] == multiset(s)[c]
    decreases |s|
  {
    if s == [] then []
    else
      assert multiset(s) == multiset{s[0]} + multiset(s[1..]) by { assert s == [s[0]] + s[1..]; }
      if drop(s[0]) then Remove(s[1..], drop)
      else [s[0]] + Remove(s[1..], drop)
  }

  /** Each character of `s` as a one-character string, or as the empty string when `drop` accepts it. */
  function Kept(s: string, drop: char -> bool): (pieces: seq<string>)
    ensures |pieces| == |s|
  {
    seq(|s|, i requires 0 <= i < |s| => if drop(s[i]) then [] else [s[i]])
  }

  /**
   Deletion keeps the surviving characters in their original order: it is the concatenation,
   position by position, of each kept character.
   */
  lemma {:induction false} RemoveKeepsOrder(s: string, drop: char -> bool)
    ensures Remove(s, drop) == Concat(Kept(s, drop))
    decreases |s|
  {
    if s != [] {
      RemoveKeepsOrder(s[1..], drop);
      assert Kept(s, drop)[1..] == Kept(s[1..], drop);
    }
  }

  /** Deletion works character by character: it distributes over concatenation. */
  lemma {:induction false} RemoveAppend(a: string, b: string, drop: char -> bool)
    ensures Remove(a + b, drop) == Remove(a, drop) + Remove(b, drop)
    decreases |a|
  {
    if a == [] {
      assert a + b == b;
    } else {
      assert (a + b)[0] == a[0];
      assert (a + b)[1..] == a[1..] + b;
      RemoveAppend(a[1..], b, drop);
    }
  }

  /** A string holding none of the deleted characters is left as it is. */
  lemma {:induction false} RemoveKeepsClean(s: string, drop: char -> bool)
    requires forall c :: c in s ==> !drop(c)
    ensures Remove(s, drop) == s
    decreases |s|
  {
    if s != [] {
      assert s[0] in s;
      forall c | c in s[1..] ensures !drop(c) {
        assert c in s;
      }
      RemoveKeepsClean(s[1..], drop);
      assert s == [s[0]] + s[1..];
    }
  }

  /** Deleting twice is deleting once. */
  lemma RemoveIdempotent(s: string, drop: char -> bool)
    ensures Remove(Remove(s, drop), drop) == Remove(s, drop)
  {
    RemoveKeepsClean(Remove(s, drop), drop);
  }

  /** Deleting one class of characters and then another deletes their union. */
  lemma {:induction false} RemoveComposes(s: string, a: char -> bool, b: char -> bool, both: char -> bool)
    requires forall c :: both(c) <==> a(c) || b(c)
    ensures Remove(Remove(s, a), b) == Remove(s, both)
    decreases |s|
  {
    if s != [] {
      RemoveComposes(s[1..], a, b, both);
    }
  }

  /** `clean_text`: deletes exactly the characters of `string.punctuation`. */
  function CleanText(s: string): (r: string)
    ensures forall c :: c in r ==> c in s && c !in Punctuation
    ensures forall c :: c !in Punctuation ==> multiset(r)[c] == multiset(s)[c]
  {
    CharacterClassesMatchConstants();
    Remove(s, IsPunctuation)
  }

  /** `clean_digits`: deletes exactly the characters `0`..`9`. */
  function CleanDigits(s: string): (r: string)
    ensures forall c :: c in r ==> c in s && c !in Digits
    ensures forall c :: c !in Digits ==> multiset(r)[c] == multiset(s)[c]
  {
    CharacterClassesMatchConstants();
    Remove(s, IsDigit)
  }

  lemma CleanTextIdempotent(s: string)
    ensures CleanText(CleanText(s)) == CleanText(s)
  {
    RemoveIdempotent(s, IsPunctuation);
  }

  lemma CleanDigitsIdempotent(s: string)
    ensures CleanDigits(CleanDigits(s)) == CleanDigits(s)
  {
    RemoveIdempotent(s, IsDigit);
  }

  /** The two cleaners commute, and together they delete punctuation and digits at once. */
  lemma CleanersCommute(s: string)
    ensures CleanDigits(CleanText(s)) == Remove(s, IsPunctuationOrDigit)
    ensures CleanText(CleanDigits(s)) == Remove(s, IsPunctuationOrDigit)
  {
    RemoveComposes(s, IsPunctuation, IsDigit, IsPunctuationOrDigit);
    RemoveComposes(s, IsDigit, IsPunctuation, IsPunctuationOrDigit);
  }

  /** ASCII lower-casing of one character; every other character is unchanged. */
  function LowerChar(c: char): (r: char)
  {
    if IsUpper(c) then (c as int + 32) as char else c
  }

  /** `str.lower`, restricted to ASCII letters. */
  function Lower(s: string): (r: string)
    ensures |r| == |s|
    ensures forall i :: 0 <= i < |s| ==> r[i] == LowerChar(s[i])
    ensures forall c :: c in r ==> !IsUpper(c)
  {
    seq(|s|, i requires 0 <= i < |s| => LowerChar(s[i]))
  }

  /** Lower-casing is idempotent, and it never creates or destroys whitespace. */
  lemma LowerIdempotent(s: string)
    ensures Lower(Lower(s)) == Lower(s)
    ensures forall i :: 0 <= i < |s| ==> (IsSpace(Lower(s)[i]) <==> IsSpace(s[i]))
  {
  }

  /** Lower-cases every string of a list. */
  function LowerAll(xs: seq<string>): (r: seq<string>)
    ensures |r| == |xs|
    ensures forall i :: 0 <= i < |xs| ==> r[i] == Lower(xs[i])
  {
    seq(|xs|, i requires 0 <= i < |xs| => Lower(xs[i]))
  }

  /** The length of the run of non-whitespace characters that starts `s`. */
  function WordLength(s: string): (n: nat)
    ensures n <= |s|
    ensures forall i :: 0 <= i < n ==> !IsSpace(s[i])
    ensures n < |s| ==> IsSpace(s[n])
  {
    if s == [] || IsSpace(s[0]) then 0 else 1 + WordLength(s[1..])
  }

  /** `s.split()`: the maximal runs of non-whitespace characters, in order. */
  function Words(s: string): (r: seq<string>)
    ensures forall i :: 0 <= i < |r| ==> r[i] != [] && forall c :: c in r[i] ==> !IsSpace(c) && c in s
    decreases |s|
  {
    if s == [] then []
    else if IsSpace(s[0]) then
      assert forall c :: c in s[1..] ==> c in s;
      Words(s[1..])
    else
      var n := WordLength(s);
      assert forall c :: c in s[n..] ==> c in s;
      assert forall c :: c in s[..n] ==> c in s;
      [s[..n]] + Words(s[n..])
  }

  /** Concatenation of a list of strings. */
  function Concat(xs: seq<string>): string
  {
    if xs == [] then [] else xs[0] + Concat(xs[1..])
  }

  /** The words of `s`, glued back together, are `s` without its whitespace. */
  lemma {:induction false} WordsKeepEveryOtherCharacter(s: string)
    ensures Concat(Words(s)) == Remove(s, IsSpace)
    decreases |s|
  {
    if s == [] {
    } else if IsSpace(s[0]) {
      WordsKeepEveryOtherCharacter(s[1..]);
    } else {
      WordsKeepEveryOtherCharacter(s[WordLength(s)..]);
      WordsStep(s);
      RemoveLeadingWord(s);
    }
  }

  /** A string that starts with a word splits into that word and the words of the rest. */
  lemma WordsStep(s: string)
    requires s != [] && !IsSpace(s[0])
    ensures Concat(Words(s)) == s[..WordLength(s)] + Concat(Words(s[WordLength(s)..]))
  {
    var n := WordLength(s);
    var w := Words(s);
    assert w == [s[..n]] + Words(s[n..]);
    assert w[1..] == Words(s[n..]);
  }

  /** Removing whitespace keeps a leading word whole. */
  lemma RemoveLeadingWord(s: string)
    ensures Remove(s, IsSpace) == s[..WordLength(s)] + Remove(s[WordLength(s)..], IsSpace)
  {
    var n := WordLength(s);
    assert s == s[..n] + s[n..];
    RemoveAppend(s[..n], s[n..], IsSpace);
    forall c | c in s[..n] ensures !IsSpace(c) {
      var i :| 0 <= i < n && s[..n][i] == c;
      assert !IsSpace(s[i]);
    }
    RemoveKeepsClean(s[..n], IsSpace);
  }

  /** A non-empty string without whitespace is a single word. */
  lemma {:induction false} WordsOfWord(s: string)
    requires s != [] && forall c :: c in s ==> !IsSpace(c)
    ensures Words(s) == [s]
  {
    var n := WordLength(s);
    assert s[..n] == s && s[n..] == [];
  }

  /** A whitespace character separates words: the words on either side of it, in order. */
  lemma {:induction false} WordsSplitAtSpace(a: string, c: char, b: string)
    requires IsSpace(c)
    ensures Words(a + [c] + b) == Words(a) + Words(b)
    decreases |a|
  {
    var s := a + [c] + b;
    if a == [] {
      assert s[1..] == b;
    } else if IsSpace(a[0]) {
      assert s[1..] == a[1..] + [c] + b;
      WordsSplitAtSpace(a[1..], c, b);
    } else {
      WordLengthAppend(a, [c] + b);
      assert s == a + ([c] + b);
      var n := WordLength(a);
      assert s[..n] == a[..n];
      assert s[n..] == a[n..] + [c] + b;
      WordsSplitAtSpace(a[n..], c, b);
    }
  }

  /** Appending nothing, or text that starts with whitespace, leaves the leading word of `a` as it is. */
  lemma {:induction false} WordLengthAppend(a: string, t: string)
    requires t == [] || IsSpace(t[0])
    ensures WordLength(a + t) == WordLength(a)
    decreases |a|
  {
    if a != [] && !IsSpace(a[0]) {
      assert (a + t)[1..] == a[1..] + t;
      WordLengthAppend(a[1..], t);
    } else if a == [] {
      assert a + t == t;
    }
  }

  /** `s.split(c)[0]`: the part of `s` before the first `c`, or all of `s` if there is none. */
  function BeforeFirst(s: string, c: char): (r: string)
    ensures r <= s
    ensures c !in r
    ensures |r| < |s| ==> s[|r|] == c
  {
    if s == [] || s[0] == c then [] else [s[0]] + BeforeFirst(s[1..], c)
  }

  /** Number of occurrences of `c` in `s`. */
  function Occurrences(s: string, c: char): nat
  {
    multiset(s)[c]
  }

  /** `s.split(sep)` for a one-character separator: the pieces between separators, empty ones included. */
  function SplitOn(s: string, sep: char): (r: seq<string>)
    ensures |r| > 0
    ensures forall i :: 0 <= i < |r| ==> sep !in r[i]
    decreases |s|
  {
    var head := BeforeFirst(s, sep);
    if |head| == |s| then
      assert head == s;
      [s]
    else
      [head] + SplitOn(s[|head| + 1..], sep)
  }

  /** There is one more piece than there are separators. */
  lemma {:induction false} SplitOnCount(s: string, sep: char)
    ensures |SplitOn(s, sep)| == Occurrences(s, sep) + 1
    decreases |s|
  {
    var head := BeforeFirst(s, sep);
    if |head| == |s| {
      assert head == s;
    } else {
      var rest := s[|head| + 1..];
      SplitOnCount(rest, sep);
      assert s == head + [sep] + rest;
      assert multiset(s) == multiset(head) + multiset{sep} + multiset(rest);
    }
  }

  /** Every character of a piece comes from the split string. */
  lemma {:induction false} SplitOnChars(s: string, sep: char)
    ensures forall i, c :: 0 <= i < |SplitOn(s, sep)| && c in SplitOn(s, sep)[i] ==> c in s
    decreases |s|
  {
    var head := BeforeFirst(s, sep);
    if |head| < |s| {
      var rest := s[|head| + 1..];
      SplitOnChars(rest, sep);
      assert SplitOn(s, sep) == [head] + SplitOn(rest, sep);
      assert s == head + [sep] + rest;
    }
  }

  /** `sep.join(parts)` for a one-character separator. */
  function Join(parts: seq<string>, sep: char): string
    requires |parts| > 0
  {
    if |parts| == 1 then parts[0] else parts[0] + [sep] + Join(parts[1..], sep)
  }

  /** Lower-casing distributes over concatenation. */
  lemma LowerAppend(a: string, b: string)
    ensures Lower(a + b) == Lower(a) + Lower(b)
  {
  }

  /** Joining lower-cased pieces with a character that has no case lower-cases the joined string. */
  lemma {:induction false} JoinLowerAll(parts: seq<string>, sep: char)
    requires |parts| > 0
    requires !IsUpper(sep)
    ensures Join(LowerAll(parts), sep) == Lower(Join(parts, sep))
    decreases |parts|
  {
    if |parts| > 1 {
      JoinLowerAll(parts[1..], sep);
      assert LowerAll(parts)[1..] == LowerAll(parts[1..]);
      LowerAppend(parts[0] + [sep], Join(parts[1..], sep));
      LowerAppend(parts[0], [sep]);
    }
  }

  /** Splitting and re-joining with the same separator gives the original string back. */
  lemma {:induction false} SplitThenJoin(s: string, sep: char)
    ensures Join(SplitOn(s, sep), sep) == s
    decreases |s|
  {
    var head := BeforeFirst(s, sep);
    if |head| < |s| {
      var rest := s[|head| + 1..];
      SplitThenJoin(rest, sep);
      assert SplitOn(s, sep)[1..] == SplitOn(rest, sep);
      assert s == head + [sep] + rest;
    }
  }

  /** Joining pieces free of the separator and splitting again gives the pieces back. */
  lemma {:induction false} JoinThenSplit(parts: seq<string>, sep: char)
    requires |parts| > 0
    requires forall i :: 0 <= i < |parts| ==> sep !in parts[i]
    ensures SplitOn(Join(parts, sep), sep) == parts
    decreases |parts|
  {
    var s := Join(parts, sep);
    if |parts| == 1 {
      assert BeforeFirst(s, sep) == s;
    } else {
      var tail := Join(parts[1..], sep);
      assert s == parts[0] + [sep] + tail;
      BeforeFirstOfPrefix(parts[0], tail, sep);
      var head := BeforeFirst(s, sep);
      assert head == parts[0];
      assert |head| < |s|;
      assert s[|head| + 1..] == tail;
      JoinThenSplit(parts[1..], sep);
      assert SplitOn(s, sep) == [head] + SplitOn(tail, sep);
      assert parts == [parts[0]] + parts[1..];
    }
  }

  /** Joining two lists of pieces joins their joins with one more separator. */
  lemma {:induction false} JoinAppend(xs: seq<string>, ys: seq<string>, sep: char)
    requires |xs| > 0 && |ys| > 0
    ensures Join(xs + ys, sep) == Join(xs, sep) + [sep] + Join(ys, sep)
    decreases |xs|
  {
    if |xs| > 1 {
      assert (xs + ys)[1..] == xs[1..] + ys;
      JoinAppend(xs[1..], ys, sep);
    }
  }

  /** Splitting two strings glued by one separator gives the pieces of each, in order. */
  lemma SplitOnAppend(x: string, y: string, sep: char)
    ensures SplitOn(x + [sep] + y, sep) == SplitOn(x, sep) + SplitOn(y, sep)
  {
    var xs := SplitOn(x, sep);
    var ys := SplitOn(y, sep);
    SplitThenJoin(x, sep);
    SplitThenJoin(y, sep);
    JoinAppend(xs, ys, sep);
    JoinThenSplit(xs + ys, sep);
  }

  /** The text before the first separator is the piece that precedes it. */
  lemma BeforeFirstOfPrefix(p: string, tail: string, sep: char)
    requires sep !in p
    ensures BeforeFirst(p + [sep] + tail, sep) == p
  {
    var s := p + [sep] + tail;
    assert s[|p|] == sep;
    assert s[..|p|] == p;
  }

  /** Translation by a one-character table: every `from` becomes `to`, every other character stays. */
  function Translate(s: string, from: char, to: char): (r: string)
    ensures |r| == |s|
    ensures forall i :: 0 <= i < |s| ==> r[i] == (if s[i] == from then to else s[i])
  {
    seq(|s|, i requires 0 <= i < |s| => if s[i] == from then to else s[i])
  }

  /** The number of whitespace characters at the start of `s`: what `str.lstrip()` drops. */
  function LeadingSpace(s: string): (n: nat)
    ensures n <= |s|
    ensures forall k :: 0 <= k < n ==> IsSpace(s[k])
    ensures n < |s| ==> !IsSpace(s[n])
    decreases |s|
  {
    if s != [] && IsSpace(s[0]) then 1 + LeadingSpace(s[1..]) else 0
  }

  /** The number of whitespace characters at the end of `s`: what `str.rstrip()` drops. */
  function TrailingSpace(s: string): (n: nat)
    ensures n <= |s|
    ensures forall k :: |s| - n <= k < |s| ==> IsSpace(s[k])
    ensures n < |s| ==> !IsSpace(s[|s| - n - 1])
    decreases |s|
  {
    if s != [] && IsSpace(s[|s| - 1]) then 1 + TrailingSpace(s[..|s| - 1]) else 0
  }

  /** `str.strip()`: the slice of `s` left after dropping whitespace at both ends. */
  function Strip(s: string): (r: string)
    ensures r == [] || (!IsSpace(r[0]) && !IsSpace(r[|r| - 1]))
    ensures LeadingSpace(s) + |r| <= |s| && r == s[LeadingSpace(s)..LeadingSpace(s) + |r|]
    ensures forall k :: 0 <= k < LeadingSpace(s) ==> IsSpace(s[k])
    ensures forall k :: LeadingSpace(s) + |r| <= k < |s| ==> IsSpace(s[k])
  {
    var i := LeadingSpace(s);
    if i == |s| then []
    else
      var j := |s| - TrailingSpace(s);
      s[i..j]
  }
}
