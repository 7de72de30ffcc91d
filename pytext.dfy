/** Python's str methods that the scraper applies to cell text and links:
    split on one separator, replace, strip/rstrip with a set of characters,
    and lower, with the properties the callers depend on. */
module PyText {

  /** `s.split(sep)` for a one-character separator: the pieces between the
      separators, empty pieces included. */
  function Split(s: string, sep: char): (parts: seq<string>)
    ensures |parts| >= 1
    ensures sep in s <==> |parts| > 1
    ensures forall i :: 0 <= i < |parts| ==> sep !in parts[i]
    decreases |s|
  {
    if s == [] then [[]]
    else
      var rest := Split(s[1..], sep);
      assert s == [s[0]] + s[1..];
      if s[0] == sep then [[]] + rest
      else [[s[0]] + rest[0]] + rest[1..]
  }

  /** `sep.join(parts)`. */
  function Join(parts: seq<string>, sep: char): string
    requires |parts| >= 1
    decreases |parts|
  {
    if |parts| == 1 then parts[0] else parts[0] + [sep] + Join(parts[1..], sep)
  }

  /** Splitting loses nothing: joining the pieces gives the text back. */
  lemma {:induction false} JoinSplit(s: string, sep: char)
    ensures Join(Split(s, sep), sep) == s
    decreases |s|
  {
    if s != [] {
      JoinSplit(s[1..], sep);
      var rest := Split(s[1..], sep);
      if s[0] != sep && |rest| > 1 {
        assert Split(s, sep)[1..] == rest[1..];
        assert Join(rest, sep) == rest[0] + [sep] + Join(rest[1..], sep);
      }
    }
  }

  /** A separator-free head is the first piece; the rest splits on its own. */
  lemma {:induction false} SplitAfter(a: string, t: string, sep: char)
    requires sep !in a
    ensures Split(a + [sep] + t, sep) == [a] + Split(t, sep)
    decreases |a|
  {
    if a == [] {
      assert (a + [sep] + t)[1..] == t;
    } else {
      SplitAfter(a[1..], t, sep);
      assert (a + [sep] + t)[1..] == a[1..] + [sep] + t;
      assert [a[0]] + a[1..] == a;
    }
  }

  /** Text without the separator is a single piece. */
  lemma {:induction false} SplitWhole(a: string, sep: char)
    requires sep !in a
    ensures Split(a, sep) == [a]
    decreases |a|
  {
    if a != [] {
      SplitWhole(a[1..], sep);
      assert [a[0]] + a[1..] == a;
    }
  }

  /** `s.replace(pat, rep)`: occurrences found left to right, not
      overlapping, and the replaced text is not searched again. */
  function Replace(s: string, pat: string, rep: string): string
    requires pat != []
    decreases |s|
  {
    if |s| < |pat| then s
    else if s[..|pat|] == pat then rep + Replace(s[|pat|..], pat, rep)
    else [s[0]] + Replace(s[1..], pat, rep)
  }

  /** `pat` occurs in `s` starting at position `i`. */
  predicate OccursAt(s: string, pat: string, i: int)
  {
    0 <= i && i + |pat| <= |s| && s[i..i + |pat|] == pat
  }

  /** Replacing a pattern that does not occur leaves the text as it is. */
  lemma {:induction false} ReplaceAbsent(s: string, pat: string, rep: string)
    requires pat != []
    requires forall i :: !OccursAt(s, pat, i)
    ensures Replace(s, pat, rep) == s
    decreases |s|
  {
    if |s| >= |pat| {
      assert !OccursAt(s, pat, 0);
      forall i ensures !OccursAt(s[1..], pat, i) {
        if OccursAt(s[1..], pat, i) {
          assert s[1..][i..i + |pat|] == s[i + 1..i + 1 + |pat|];
          assert OccursAt(s, pat, i + 1);
        }
      }
      ReplaceAbsent(s[1..], pat, rep);
      assert [s[0]] + s[1..] == s;
    }
  }

  /** Replacing one character by another is a character-wise substitution. */
  lemma {:induction false} ReplaceOneChar(s: string, c: char, d: char)
    ensures |Replace(s, [c], [d])| == |s|
    ensures forall i :: 0 <= i < |s| ==>
              Replace(s, [c], [d])[i] == (if s[i] == c then d else s[i])
    decreases |s|
  {
    if s != [] {
      ReplaceOneChar(s[1..], c, d);
      assert s[..1] == [s[0]];
    }
  }

  /** The characters of a string, as `rstrip`/`strip` read their argument. */
  function CharSet(s: string): set<char>
  {
    set i | 0 <= i < |s| :: s[i]
  }

  /** `s.rstrip(chars)`: drops trailing characters that belong to `chars`. */
  function RStrip(s: string, chars: set<char>): string
    decreases |s|
  {
    if s != [] && s[|s| - 1] in chars then RStrip(s[..|s| - 1], chars) else s
  }

  /** `s.lstrip(chars)`: drops leading characters that belong to `chars`. */
  function LStrip(s: string, chars: set<char>): string
    decreases |s|
  {
    if s != [] && s[0] in chars then LStrip(s[1..], chars) else s
  }

  /** `s.strip(chars)`. */
  function Strip(s: string, chars: set<char>): string
  {
    LStrip(RStrip(s, chars), chars)
  }

  /** What rstrip keeps is a prefix; everything it drops is in `chars`; and
      what it keeps does not end in one of them. */
  lemma {:induction false} RStripShape(s: string, chars: set<char>)
    ensures var r := RStrip(s, chars);
      |r| <= |s| && r == s[..|r|] &&
      (forall i :: |r| <= i < |s| ==> s[i] in chars) &&
      (r == [] || r[|r| - 1] !in chars)
    decreases |s|
  {
    if s != [] && s[|s| - 1] in chars {
      RStripShape(s[..|s| - 1], chars);
    }
  }

  /** Conversely, a split of `s` into a prefix not ending in `chars` and a
      tail made of `chars` is exactly what rstrip computes. */
  lemma {:induction false} RStripUnique(p: string, t: string, chars: set<char>)
    requires forall i :: 0 <= i < |t| ==> t[i] in chars
    requires p == [] || p[|p| - 1] !in chars
    ensures RStrip(p + t, chars) == p
    decreases |t|
  {
    if t == [] {
      assert p + t == p;
    } else {
      assert (p + t)[..|p + t| - 1] == p + t[..|t| - 1];
      RStripUnique(p, t[..|t| - 1], chars);
    }
  }

  predicate IsUpper(c: char)
  {
    'A' <= c <= 'Z'
  }

  function LowerChar(c: char): char
  {
    if IsUpper(c) then (c as int - 'A' as int + 'a' as int) as char else c
  }

  /** `s.lower()` over ASCII letters. */
  function Lower(s: string): (r: string)
    ensures |r| == |s|
    ensures forall i :: 0 <= i < |s| ==> r[i] == LowerChar(s[i])
  {
    seq(|s|, i requires 0 <= i < |s| => LowerChar(s[i]))
  }

  /** Lower-casing leaves no upper-case letter, and only changes letters. */
  lemma LowerShape(s: string)
    ensures forall i :: 0 <= i < |s| ==> !IsUpper(Lower(s)[i])
    ensures forall i :: 0 <= i < |s| && !IsUpper(s[i]) ==> Lower(s)[i] == s[i]
  {
  }
}
