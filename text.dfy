/** String primitives with Python's semantics, written character by character:
    `str.startswith`, `str.count`, `str.replace(p, '')`, a case-insensitive
    `re.sub(re.escape(p), '', s)`, `str.split()` and `str.join`. Character
    classes are the ASCII ones, except `IsSpace`, which is Python's `str.isspace`. */
module Text {

  predicate IsAsciiUpper(c: char) { 'A' <= c <= 'Z' }

  predicate IsAsciiLower(c: char) { 'a' <= c <= 'z' }

  predicate IsDigit(c: char) { '0' <= c <= '9' }

  predicate IsAlnum(c: char) { IsAsciiUpper(c) || IsAsciiLower(c) || IsDigit(c) }

  /** A character that `\w` matches (so `\b` sits between such a character and any other). */
  predicate IsWordChar(c: char) { IsAlnum(c) || c == '_' }

  /** The characters for which `str.isspace()` holds. */
  predicate IsSpace(c: char)
  {
    var n := c as int;
    n == 32 || 9 <= n <= 13 || 28 <= n <= 31 || n == 0x85 || n == 0xA0 || n == 0x1680
    || 0x2000 <= n <= 0x200A || n == 0x2028 || n == 0x2029 || n == 0x202F || n == 0x205F || n == 0x3000
  }

  function Lower(c: char): (r: char)
    ensures !IsAsciiUpper(r)
    ensures IsAsciiUpper(c) || r == c
  {
    if IsAsciiUpper(c) then (c as int + 32) as char else c
  }

  /** `str.lower()` restricted to ASCII letters. */
  function LowerStr(s: string): (r: string)
    ensures |r| == |s| && forall i :: 0 <= i < |s| ==> r[i] == Lower(s[i])
  {
    if |s| == 0 then "" else [Lower(s[0])] + LowerStr(s[1..])
  }

  /** `s.startswith(p)`. */
  predicate StartsWith(s: string, p: string)
  {
    |p| == 0 || (|s| > 0 && s[0] == p[0] && StartsWith(s[1..], p[1..]))
  }

  /** `s` starts with `p` when `s` is read in lower case (`p` is lower case). */
  predicate StartsWithCi(s: string, p: string)
  {
    |p| == 0 || (|s| > 0 && Lower(s[0]) == p[0] && StartsWithCi(s[1..], p[1..]))
  }

  lemma {:induction false} StartsWithIsPrefix(s: string, p: string)
    ensures StartsWith(s, p) <==> p <= s
  {
    if |p| > 0 && |s| > 0 {
      StartsWithIsPrefix(s[1..], p[1..]);
      assert p == [p[0]] + p[1..] && s == [s[0]] + s[1..];
      assert p <= s <==> s[0] == p[0] && p[1..] <= s[1..];
    }
  }

  /** `s.count(p)`: non-overlapping occurrences, scanning from the left. */
  function CountOcc(s: string, p: string): (n: nat)
    requires |p| > 0
    ensures n <= |s|
    decreases |s|
  {
    if |s| < |p| then 0
    else if StartsWith(s, p) then 1 + CountOcc(s[|p|..], p)
    else CountOcc(s[1..], p)
  }

  /** `p` occurs in `s` at position `i`. */
  predicate OccursAt(s: string, p: string, i: nat)
  {
    i + |p| <= |s| && s[i..i + |p|] == p
  }

  /** A slice of `s[1..]` is the same slice of `s`, shifted by one. */
  lemma SliceOfTail(s: string, i: nat, n: nat)
    requires 1 <= i && i + n <= |s|
    ensures s[i..i + n] == s[1..][i - 1..i - 1 + n]
  {
    var a, b := s[i..i + n], s[1..][i - 1..i - 1 + n];
    assert forall k :: 0 <= k < n ==> a[k] == b[k];
  }

  /** No occurrence is counted exactly when `p` occurs nowhere in `s`. */
  lemma {:induction false} CountOccZeroIff(s: string, p: string)
    requires |p| > 0
    ensures CountOcc(s, p) == 0 <==> forall i :: 0 <= i < |s| ==> !OccursAt(s, p, i)
    decreases |s|
  {
    if |s| >= |p| {
      StartsWithIsPrefix(s, p);
      assert StartsWith(s, p) <==> OccursAt(s, p, 0);
      if !StartsWith(s, p) {
        CountOccZeroIff(s[1..], p);
        forall i | 1 <= i < |s| ensures OccursAt(s, p, i) <==> OccursAt(s[1..], p, i - 1) {
          if i + |p| <= |s| {
            SliceOfTail(s, i, |p|);
          }
        }
        assert CountOcc(s, p) == CountOcc(s[1..], p);
        if forall j :: 0 <= j < |s| - 1 ==> !OccursAt(s[1..], p, j) {
          forall i | 0 <= i < |s| ensures !OccursAt(s, p, i) {
            if i > 0 {
              assert !OccursAt(s[1..], p, i - 1);
            }
          }
        } else {
          var j :| 0 <= j < |s| - 1 && OccursAt(s[1..], p, j);
          assert OccursAt(s, p, j + 1);
        }
      }
    }
  }

  /** A pattern one of whose characters is absent from `s` is never counted. */
  lemma CountOccAbsentChar(s: string, p: string, k: nat)
    requires k < |p| && forall j :: 0 <= j < |s| ==> s[j] != p[k]
    ensures CountOcc(s, p) == 0
  {
    CountOccZeroIff(s, p);
  }

  /** A prefix without the pattern's first character adds no occurrence. */
  lemma {:induction false} CountOccSkip(a: string, rest: string, p: string)
    requires |p| > 0 && forall j :: 0 <= j < |a| ==> a[j] != p[0]
    ensures CountOcc(a + rest, p) == CountOcc(rest, p)
    decreases |a|
  {
    if |a| == 0 {
      assert a + rest == rest;
    } else if |a + rest| >= |p| {
      assert (a + rest)[1..] == a[1..] + rest;
      CountOccSkip(a[1..], rest, p);
    }
  }

  /** How many times `c` occurs in `s`. */
  function CharCount(s: string, c: char): nat
  {
    if |s| == 0 then 0 else (if s[0] == c then 1 else 0) + CharCount(s[1..], c)
  }

  /** Counting a character distributes over concatenation. */
  lemma {:induction false} CharCountAppend(a: string, b: string, c: char)
    ensures CharCount(a + b, c) == CharCount(a, c) + CharCount(b, c)
  {
    if |a| > 0 {
      CharCountAppend(a[1..], b, c);
      assert (a + b)[1..] == a[1..] + b;
    } else {
      assert a + b == b;
    }
  }

  /** An occurrence of `c` at position `k` splits the count of a stretch there. */
  lemma CharCountSplitAt(s: string, i: nat, k: nat, j: nat, c: char)
    requires i <= k < j <= |s| && s[k] == c
    ensures CharCount(s[i..j], c) == CharCount(s[i..k], c) + 1 + CharCount(s[k + 1..j], c)
  {
    var t := s[i..j];
    assert t == s[i..k] + t[k - i..];
    CharCountAppend(s[i..k], t[k - i..], c);
    assert t[k - i..][1..] == s[k + 1..j];
  }

  lemma {:induction false} CharCountAbsent(s: string, c: char)
    requires forall j :: 0 <= j < |s| ==> s[j] != c
    ensures CharCount(s, c) == 0
  {
    if |s| > 0 {
      CharCountAbsent(s[1..], c);
    }
  }

  /** The occurrences of `c` are its multiplicity in the multiset of characters. */
  lemma {:induction false} CharCountMultiset(s: string, c: char)
    ensures CharCount(s, c) == multiset(s)[c]
  {
    if |s| > 0 {
      CharCountMultiset(s[1..], c);
      assert s == [s[0]] + s[1..];
    }
  }

  /** Counting a one-character pattern counts that character. */
  lemma {:induction false} CountOccChar(s: string, c: char)
    ensures CountOcc(s, [c]) == CharCount(s, c)
  {
    if |s| > 0 {
      CountOccChar(s[1..], c);
      assert StartsWith(s, [c]) <==> s[0] == c;
    }
  }

  /** Number of characters of `s` that satisfy `f`. */
  function CountIf(s: string, f: char -> bool): (n: nat)
    ensures n <= |s|
  {
    if |s| == 0 then 0 else (if f(s[0]) then 1 else 0) + CountIf(s[1..], f)
  }

  /** `s.replace(p, '')`: deletes every non-overlapping occurrence, left to right. */
  function RemoveAll(s: string, p: string): string
    requires |p| > 0
    decreases |s|
  {
    if |s| < |p| then s
    else if StartsWith(s, p) then RemoveAll(s[|p|..], p)
    else [s[0]] + RemoveAll(s[1..], p)
  }

  /** Deleting occurrences only ever deletes characters. */
  lemma {:induction false} RemoveAllShrinks(s: string, p: string)
    requires |p| > 0
    ensures multiset(RemoveAll(s, p)) <= multiset(s) && |RemoveAll(s, p)| <= |s|
    decreases |s|
  {
    if |s| >= |p| {
      if StartsWith(s, p) {
        RemoveAllShrinks(s[|p|..], p);
        assert s == s[..|p|] + s[|p|..];
      } else {
        RemoveAllShrinks(s[1..], p);
        assert s == [s[0]] + s[1..];
      }
    }
  }

  /** `re.sub(re.escape(p), '', s, flags=re.IGNORECASE)` for a lower-case `p`. */
  function RemoveAllCi(s: string, p: string): string
    requires |p| > 0
    decreases |s|
  {
    if |s| < |p| then s
    else if StartsWithCi(s, p) then RemoveAllCi(s[|p|..], p)
    else [s[0]] + RemoveAllCi(s[1..], p)
  }

  lemma {:induction false} RemoveAllCiShrinks(s: string, p: string)
    requires |p| > 0
    ensures multiset(RemoveAllCi(s, p)) <= multiset(s) && |RemoveAllCi(s, p)| <= |s|
    decreases |s|
  {
    if |s| >= |p| {
      if StartsWithCi(s, p) {
        RemoveAllCiShrinks(s[|p|..], p);
        assert s == s[..|p|] + s[|p|..];
      } else {
        RemoveAllCiShrinks(s[1..], p);
        assert s == [s[0]] + s[1..];
      }
    }
  }

  /** Removing a one-character pattern leaves none of that character. */
  lemma {:induction false} RemoveAllCharGone(s: string, c: char)
    ensures c !in RemoveAll(s, [c])
  {
    if |s| > 0 {
      RemoveAllCharGone(s[1..], c);
      assert StartsWith(s, [c]) <==> s[0] == c;
    }
  }

  /** Leading whitespace dropped (`str.lstrip()`). */
  function DropSpaces(s: string): (r: string)
    ensures |r| <= |s| && r == s[|s| - |r|..]
    ensures |r| > 0 ==> !IsSpace(r[0])
  {
    if |s| > 0 && IsSpace(s[0]) then DropSpaces(s[1..]) else s
  }

  /** The longest prefix of `s` without whitespace. */
  function WordPrefix(s: string): (w: string)
    ensures |w| <= |s| && w == s[..|w|]
    ensures forall i :: 0 <= i < |w| ==> !IsSpace(w[i])
    ensures |w| < |s| ==> IsSpace(s[|w|])
    ensures |s| > 0 && !IsSpace(s[0]) ==> |w| > 0
  {
    if |s| == 0 || IsSpace(s[0]) then "" else [s[0]] + WordPrefix(s[1..])
  }

  /** A non-empty run of non-whitespace characters. */
  predicate IsWord(w: string)
  {
    |w| > 0 && forall i :: 0 <= i < |w| ==> !IsSpace(w[i])
  }

  /** `s.split()`: the maximal runs of non-whitespace characters, in order. */
  function Split(s: string): (ws: seq<string>)
    ensures forall i :: 0 <= i < |ws| ==> IsWord(ws[i])
    decreases |s|
  {
    var t := DropSpaces(s);
    if |t| == 0 then []
    else
      var w := WordPrefix(t);
      [w] + Split(t[|w|..])
  }

  /** `sep.join(parts)`. */
  function Join(parts: seq<string>, sep: string): string
  {
    if |parts| == 0 then ""
    else if |parts| == 1 then parts[0]
    else parts[0] + sep + Join(parts[1..], sep)
  }

  /** `' '.join(s.split())`: whitespace runs collapsed to one space, ends trimmed. */
  function CollapseSpaces(s: string): string
  {
    Join(Split(s), " ")
  }

  /** Three words joined by single spaces split back into the three words. */
  lemma SplitThreeWords(w1: string, w2: string, w3: string)
    requires |w1| > 0 && forall i :: 0 <= i < |w1| ==> !IsSpace(w1[i])
    requires |w2| > 0 && forall i :: 0 <= i < |w2| ==> !IsSpace(w2[i])
    requires |w3| > 0 && forall i :: 0 <= i < |w3| ==> !IsSpace(w3[i])
    ensures Split(w1 + " " + (w2 + " " + w3)) == [w1, w2, w3]
  {
    SplitWord(w3);
    SplitWordSpace(w2, w3);
    SplitWordSpace(w1, w2 + " " + w3);
  }

  /** Lower-casing twice is lower-casing once. */
  lemma LowerStrIdempotent(s: string)
    ensures LowerStr(LowerStr(s)) == LowerStr(s)
  {
    assert forall i :: 0 <= i < |s| ==> Lower(LowerStr(s)[i]) == LowerStr(s)[i];
  }

  /** `s.strip()` is empty exactly when every character is whitespace. */
  lemma {:induction false} DropSpacesEmptyIff(s: string)
    ensures |DropSpaces(s)| == 0 <==> forall i :: 0 <= i < |s| ==> IsSpace(s[i])
  {
    if |s| > 0 && IsSpace(s[0]) {
      DropSpacesEmptyIff(s[1..]);
      assert forall i :: 0 < i < |s| ==> s[i] == s[1..][i - 1];
    }
  }

  lemma {:induction false} WordPrefixWhole(s: string)
    requires forall i :: 0 <= i < |s| ==> !IsSpace(s[i])
    ensures WordPrefix(s) == s
  {
    if |s| > 0 {
      WordPrefixWhole(s[1..]);
      assert s == [s[0]] + s[1..];
    }
  }

  /** A single word splits into itself. */
  lemma SplitWord(s: string)
    requires |s| > 0 && forall i :: 0 <= i < |s| ==> !IsSpace(s[i])
    ensures Split(s) == [s]
  {
    WordPrefixWhole(s);
    assert DropSpaces(s) == s;
    assert Split(s) == [s] + Split(s[|s|..]);
    assert DropSpaces(s[|s|..]) == [];
  }

  /** A single word is its own normal form. */
  lemma CollapseWord(s: string)
    requires |s| > 0 && forall i :: 0 <= i < |s| ==> !IsSpace(s[i])
    ensures CollapseSpaces(s) == s
  {
    SplitWord(s);
  }

  lemma {:induction false} WordPrefixSpace(w: string, rest: string)
    requires forall i :: 0 <= i < |w| ==> !IsSpace(w[i])
    ensures WordPrefix(w + " " + rest) == w
    decreases |w|
  {
    if |w| > 0 {
      WordPrefixSpace(w[1..], rest);
      assert (w + " " + rest)[1..] == w[1..] + " " + rest;
    } else {
      assert IsSpace((w + " " + rest)[0]);
    }
  }

  /** A leading space does not change the split. */
  lemma SplitLeadingSpace(rest: string)
    requires |rest| > 0 && !IsSpace(rest[0])
    ensures Split(" " + rest) == Split(rest)
  {
    var tail := " " + rest;
    assert tail[1..] == rest;
    assert DropSpaces(tail) == DropSpaces(rest);
  }

  /** Text that is not all whitespace splits into the first word after the
      leading whitespace and the split of what follows that word. */
  lemma SplitUnfold(s: string, t: string, w: string)
    requires t == DropSpaces(s) && |t| > 0 && w == WordPrefix(t)
    ensures Split(s) == [w] + Split(t[|w|..])
  {
  }

  /** Text starting with a non-space splits into its first word and the split of the rest. */
  lemma SplitFirstWord(s: string)
    requires |s| > 0 && !IsSpace(s[0])
    ensures Split(s) == [WordPrefix(s)] + Split(s[|WordPrefix(s)|..])
  {
    assert DropSpaces(s) == s;
  }

  /** Splitting text that starts with word `w` followed by the rest `t`. */
  lemma SplitCons(s: string, w: string, t: string)
    requires |s| > 0 && !IsSpace(s[0])
    requires WordPrefix(s) == w && s[|w|..] == t
    ensures Split(s) == [w] + Split(t)
  {
    SplitFirstWord(s);
  }

  /** Dropping a word and the space after it leaves the rest. */
  lemma DropWordSpace(w: string, rest: string)
    ensures (w + " " + rest)[|w|..] == " " + rest
  {
  }

  /** A word followed by one space and more text splits off as the first word. */
  lemma SplitWordSpace(w: string, rest: string)
    requires |w| > 0 && forall i :: 0 <= i < |w| ==> !IsSpace(w[i])
    requires |rest| > 0 && !IsSpace(rest[0])
    ensures Split(w + " " + rest) == [w] + Split(rest)
  {
    var s := w + " " + rest;
    assert s[0] == w[0];
    WordPrefixSpace(w, rest);
    DropWordSpace(w, rest);
    SplitCons(s, w, " " + rest);
    SplitLeadingSpace(rest);
  }
}
