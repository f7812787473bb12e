/**
 * The JavaScript string operations the core relies on, over `string` (a sequence of characters):
 * `trim`, `toLowerCase`, `startsWith`, `indexOf`/`includes` and a global literal `replace` with
 * the empty string; `Split` and `Join` on one character are how the colour pattern's
 * comma-separated groups are read.
 */
module Text {
  import opened Wrappers

  /** The code points JavaScript's `trim` removes and a regular expression's `\s` matches (the
    * WhiteSpace and LineTerminator characters of ECMAScript), as ten closed ranges `(lo, hi)`
    * numbered 0 to 9. */
  function WhitespaceRange(k: nat): (int, int) {
    match k
    case 0 => (0x09, 0x0D)  // tab, line feed, vertical tab, form feed, carriage return
    case 1 => (0x20, 0x20)
    case 2 => (0xA0, 0xA0)
    case 3 => (0x1680, 0x1680)
    case 4 => (0x2000, 0x200A)
    case 5 => (0x2028, 0x2029)  // line and paragraph separators
    case 6 => (0x202F, 0x202F)
    case 7 => (0x205F, 0x205F)
    case 8 => (0x3000, 0x3000)
    case 9 => (0xFEFF, 0xFEFF)  // byte order mark
    case _ => (1, 0)
  }

  /** `n` lies in one of the ranges numbered `k` and up. */
  predicate InRangesFrom(n: int, k: nat)
    decreases 10 - k
  {
    k < 10 && ((WhitespaceRange(k).0 <= n <= WhitespaceRange(k).1) || InRangesFrom(n, k + 1))
  }

  predicate IsWhitespace(c: char) {
    InRangesFrom(c as int, 0)
  }

  predicate IsDigit(c: char) {
    '0' <= c <= '9'
  }

  /** No decimal digit is whitespace. */
  lemma DigitIsNotWhitespace(c: char)
    requires IsDigit(c)
    ensures !IsWhitespace(c)
  {
  }

  /** Every character of `s` is whitespace. */
  predicate AllWhitespace(s: string) {
    forall i :: 0 <= i < |s| ==> IsWhitespace(s[i])
  }

  /** The string has no whitespace at either end, as every result of `trim` has. */
  predicate IsTrimmed(s: string) {
    s == [] || (!IsWhitespace(s[0]) && !IsWhitespace(s[|s| - 1]))
  }

  /** `s.trimStart()`: the suffix of `s` left once its leading whitespace is dropped. */
  function TrimStart(s: string): (r: string)
    ensures |r| <= |s| && r == s[|s| - |r|..]
    ensures r == [] || !IsWhitespace(r[0])
    ensures AllWhitespace(s[..|s| - |r|])
  {
    if s != [] && IsWhitespace(s[0]) then TrimStart(s[1..]) else s
  }

  /** `s.trimEnd()`: the prefix of `s` left once its trailing whitespace is dropped. */
  function TrimEnd(s: string): (r: string)
    ensures |r| <= |s| && r == s[..|r|]
    ensures r == [] || !IsWhitespace(r[|r| - 1])
    ensures AllWhitespace(s[|r|..])
  {
    if s != [] && IsWhitespace(s[|s| - 1]) then TrimEnd(s[..|s| - 1]) else s
  }

  /** `s.trim()`. */
  function Trim(s: string): (r: string)
    ensures IsTrimmed(r)
    ensures |r| <= |s|
  {
    TrimEnd(TrimStart(s))
  }

  /** `s.trim()` cuts `s` into whitespace, the result, and whitespace. */
  lemma TrimSplits(s: string)
    ensures var start := |s| - |TrimStart(s)|;
      && start + |Trim(s)| <= |s|
      && Trim(s) == s[start..start + |Trim(s)|]
      && AllWhitespace(s[..start])
      && AllWhitespace(s[start + |Trim(s)|..])
  {
    var t := TrimStart(s);
    var start := |s| - |t|;
    var r := TrimEnd(t);
    assert r == t[..|r|];
    assert t == s[start..];
    assert s[start + |r|..] == t[|r|..];
  }

  /** A character that is not whitespace and does not occur in `s.trimStart()` does not occur in `s`. */
  lemma {:induction false} NotInTrimStart(s: string, ch: char)
    requires !IsWhitespace(ch) && ch !in TrimStart(s)
    ensures ch !in s
  {
    if s != [] && IsWhitespace(s[0]) {
      assert TrimStart(s) == TrimStart(s[1..]);
      NotInTrimStart(s[1..], ch);
      assert s[0] != ch;
      assert s == [s[0]] + s[1..];
    }
  }

  /** A character that is not whitespace and does not occur in `s.trimEnd()` does not occur in `s`. */
  lemma {:induction false} NotInTrimEnd(s: string, ch: char)
    requires !IsWhitespace(ch) && ch !in TrimEnd(s)
    ensures ch !in s
  {
    if s != [] && IsWhitespace(s[|s| - 1]) {
      assert TrimEnd(s) == TrimEnd(s[..|s| - 1]);
      NotInTrimEnd(s[..|s| - 1], ch);
      assert s[|s| - 1] != ch;
      assert s == s[..|s| - 1] + [s[|s| - 1]];
    }
  }

  /** A character that is not whitespace and does not occur in `s.trim()` does not occur in `s`. */
  lemma NotInTrimmed(s: string, ch: char)
    requires !IsWhitespace(ch) && ch !in Trim(s)
    ensures ch !in s
  {
    NotInTrimEnd(TrimStart(s), ch);
    NotInTrimStart(s, ch);
  }

  /** Trimming already trimmed text changes nothing; in particular `trim` is idempotent. */
  lemma TrimmedIsFixed(s: string)
    requires IsTrimmed(s)
    ensures Trim(s) == s
  {
  }

  /** `s.trim() === ""`: the string is empty or whitespace only. */
  predicate IsBlank(s: string)
    ensures IsBlank(s) <==> AllWhitespace(s)
  {
    BlankIsAllWhitespace(s);
    Trim(s) == []
  }

  /** Trimming leaves nothing exactly when every character is whitespace. */
  lemma BlankIsAllWhitespace(s: string)
    ensures Trim(s) == [] <==> AllWhitespace(s)
  {
    var t := TrimStart(s);
    if Trim(s) == [] {
      assert t[0..] == t;
      assert s[..|s| - |t|] == s;
    }
    if AllWhitespace(s) {
      WhitespaceTrimsAway(s);
    }
  }

  /** Whitespace-only text trims to nothing from the start. */
  lemma {:induction false} WhitespaceTrimsAway(s: string)
    requires AllWhitespace(s)
    ensures TrimStart(s) == []
  {
    if s != [] {
      assert IsWhitespace(s[0]);
      assert AllWhitespace(s[1..]) by {
        forall i | 0 <= i < |s[1..]|
          ensures IsWhitespace(s[1..][i])
        {
          assert s[1..][i] == s[i + 1];
        }
      }
      WhitespaceTrimsAway(s[1..]);
    }
  }

  /** One whitespace character in front does not change what `trim` gives. */
  lemma TrimDropsLeadingWhitespace(c: char, r: string)
    requires IsWhitespace(c)
    ensures Trim([c] + r) == Trim(r)
  {
    assert ([c] + r)[0] == c && ([c] + r)[1..] == r;
  }

  /** One whitespace character behind does not change what `trim` gives. */
  lemma TrimDropsTrailingWhitespace(r: string, c: char)
    requires IsWhitespace(c)
    ensures Trim(r + [c]) == Trim(r)
  {
    TrimStartAppend(r, c);
    if TrimStart(r) != [] {
      TrimEndDropsWhitespace(TrimStart(r), c);
    }
  }

  /** `trimStart` of text with one whitespace character appended: the character follows what is
    * kept, or disappears with the rest when the text is blank. */
  lemma {:induction false} TrimStartAppend(r: string, c: char)
    requires IsWhitespace(c)
    ensures TrimStart(r + [c]) == if TrimStart(r) == [] then [] else TrimStart(r) + [c]
    decreases |r|
  {
    if r == [] {
      assert r + [c] == [c] && [c][1..] == [];
    } else if IsWhitespace(r[0]) {
      assert (r + [c])[0] == r[0] && (r + [c])[1..] == r[1..] + [c];
      TrimStartAppend(r[1..], c);
    } else {
      assert (r + [c])[0] == r[0];
    }
  }

  /** `trimEnd` drops one appended whitespace character. */
  lemma TrimEndDropsWhitespace(t: string, c: char)
    requires IsWhitespace(c)
    ensures TrimEnd(t + [c]) == TrimEnd(t)
  {
    var n := |t| + 1;
    assert (t + [c])[n - 1] == c && (t + [c])[..n - 1] == t;
  }

  /** No ASCII capital letter occurs in `s`. */
  predicate NoUpperCase(s: string) {
    forall i :: 0 <= i < |s| ==> !('A' <= s[i] <= 'Z')
  }

  function LowerChar(c: char): char {
    if 'A' <= c <= 'Z' then (c as int + 32) as char else c
  }

  /** `s.toLowerCase()` over the ASCII letters. */
  function ToLower(s: string): (r: string)
    ensures |r| == |s|
    ensures forall i :: 0 <= i < |s| ==>
      if 'A' <= s[i] <= 'Z' then r[i] as int - 'a' as int == s[i] as int - 'A' as int else r[i] == s[i]
    ensures NoUpperCase(r)
    ensures NoUpperCase(s) ==> r == s
  {
    seq(|s|, i requires 0 <= i < |s| => LowerChar(s[i]))
  }

  predicate StartsWith(s: string, prefix: string) {
    |prefix| <= |s| && s[..|prefix|] == prefix
  }

  /** `pat` occurs in `s` starting at index `j`. */
  predicate OccursAt(s: string, pat: string, j: int) {
    0 <= j && j + |pat| <= |s| && s[j..j + |pat|] == pat
  }

  /** The first occurrence of `pat` in `s` at or after index `from`. */
  function IndexFrom(s: string, pat: string, from: nat): (r: Option<nat>)
    requires from <= |s|
    ensures r.Some? ==> from <= r.value && OccursAt(s, pat, r.value)
    ensures r.Some? ==> forall j :: from <= j < r.value ==> !OccursAt(s, pat, j)
    ensures r.None? ==> forall j :: from <= j <= |s| ==> !OccursAt(s, pat, j)
    decreases |s| - from
  {
    if OccursAt(s, pat, from) then Some(from)
    else if from == |s| then None
    else IndexFrom(s, pat, from + 1)
  }

  /** `s.indexOf(pat)`, with `None` for -1: the first index at which `pat` occurs. */
  function IndexOf(s: string, pat: string): (r: Option<nat>)
    ensures r.Some? ==> OccursAt(s, pat, r.value)
    ensures r.Some? ==> forall j :: 0 <= j < r.value ==> !OccursAt(s, pat, j)
    ensures r.None? <==> forall j :: 0 <= j <= |s| ==> !OccursAt(s, pat, j)
  {
    IndexFrom(s, pat, 0)
  }

  /** An occurrence with none before it is the one `indexOf` finds. */
  lemma IndexOfFirst(s: string, pat: string, i: nat)
    requires OccursAt(s, pat, i)
    requires forall j :: 0 <= j < i ==> !OccursAt(s, pat, j)
    ensures IndexOf(s, pat) == Some(i)
  {
  }

  /** `s.includes(pat)`. */
  predicate Contains(s: string, pat: string) {
    IndexOf(s, pat).Some?
  }

  /** `s.replace(/pat/g, "")` for a literal, non-empty `pat`: scanning from the left, every
    * occurrence that starts where the previous one ended or later is dropped. */
  function RemoveAll(s: string, pat: string): string
    requires pat != []
  {
    if s == [] then []
    else if StartsWith(s, pat) then RemoveAll(s[|pat|..], pat)
    else [s[0]] + RemoveAll(s[1..], pat)
  }

  /** Every character of the result of `RemoveAll` comes from the input. */
  lemma {:induction false} RemoveAllKeeps(s: string, pat: string, c: char)
    requires pat != []
    requires c !in s
    ensures c !in RemoveAll(s, pat)
  {
    if s == [] {
    } else if StartsWith(s, pat) {
      RemoveAllKeeps(s[|pat|..], pat, c);
    } else {
      RemoveAllKeeps(s[1..], pat, c);
    }
  }

  /** `s.split(sep)`: the pieces of `s` between occurrences of `sep`. */
  function Split(s: string, sep: char): (parts: seq<string>)
    ensures |parts| >= 1
    ensures forall k :: 0 <= k < |parts| ==> sep !in parts[k]
    ensures Join(parts, sep) == s
  {
    match IndexOf(s, [sep])
    case None =>
      assert sep !in s by {
        forall j | 0 <= j < |s| ensures s[j] != sep {
          assert !OccursAt(s, [sep], j);
          assert s[j..j + 1] == [s[j]];
        }
      }
      [s]
    case Some(i) =>
      assert s[i] == sep;
      assert sep !in s[..i] by {
        forall j | 0 <= j < i ensures s[j] != sep {
          assert !OccursAt(s, [sep], j);
          assert s[j..j + 1] == [s[j]];
        }
      }
      assert s == s[..i] + [sep] + s[i + 1..];
      [s[..i]] + Split(s[i + 1..], sep)
  }

  /** The inverse of `Split`: the pieces joined with `sep` between them. */
  function Join(parts: seq<string>, sep: char): string
    requires |parts| >= 1
  {
    if |parts| == 1 then parts[0] else parts[0] + [sep] + Join(parts[1..], sep)
  }

  /** Splitting pieces joined by a separator none of them contains gives the pieces back. */
  lemma {:induction false} SplitJoin(parts: seq<string>, sep: char)
    requires |parts| >= 1
    requires forall k :: 0 <= k < |parts| ==> sep !in parts[k]
    ensures Split(Join(parts, sep), sep) == parts
  {
    var s := Join(parts, sep);
    if |parts| == 1 {
      forall j | 0 <= j <= |s| ensures !OccursAt(s, [sep], j) {
        if j < |s| {
          assert s[j..j + 1] == [s[j]];
        }
      }
    } else {
      var head := parts[0];
      var rest := Join(parts[1..], sep);
      assert s == head + [sep] + rest;
      assert OccursAt(s, [sep], |head|);
      forall j | 0 <= j < |head| ensures !OccursAt(s, [sep], j) {
        assert s[j] == head[j];
      }
      assert IndexOf(s, [sep]) == Some(|head|);
      assert s[..|head|] == head;
      assert s[|head| + 1..] == rest;
      SplitJoin(parts[1..], sep);
    }
  }
}
