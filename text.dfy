/** The PHP and Laravel string primitives that Generator.php applies to route
    URIs, rule tokens and doc text, each with the semantics of the PHP
    function it stands for (`str_replace`, `Str::replaceFirst`, `explode`,
    `trim`/`rtrim` with a character list, `strtolower`, string truthiness). */
module Text {

  predicate StartsWith(s: string, prefix: string) {
    |prefix| <= |s| && s[..|prefix|] == prefix
  }

  /** `t` occurs somewhere in `s`. */
  predicate Contains(s: string, t: string)
    decreases |s|
  {
    StartsWith(s, t) || (|s| > 0 && Contains(s[1..], t))
  }

  /** A PCRE `.` (without the `s` flag) matches every character but a line feed. */
  predicate NoNewline(s: string) {
    '\n' !in s
  }

  /** PHP truthiness of a string: every string except "" and "0" is true. */
  predicate Truthy(s: string) {
    s != "" && s != "0"
  }

  /** `str_replace(search, replacement, s)` for one search string: a single
      left-to-right pass replacing non-overlapping occurrences; an empty
      search string leaves `s` as it is. */
  function ReplaceAll(s: string, search: string, replacement: string): string
    decreases |s|
  {
    if |search| == 0 || |s| < |search| then s
    else if s[..|search|] == search then replacement + ReplaceAll(s[|search|..], search, replacement)
    else [s[0]] + ReplaceAll(s[1..], search, replacement)
  }

  /** `Str::replaceFirst(search, replacement, s)`: only the first occurrence. */
  function ReplaceFirst(s: string, search: string, replacement: string): string
    decreases |s|
  {
    if |search| == 0 || |s| < |search| then s
    else if s[..|search|] == search then replacement + s[|search|..]
    else [s[0]] + ReplaceFirst(s[1..], search, replacement)
  }

  /** `explode(sep, s)` for a one-character separator: the pieces between
      separators, always at least one (`explode(',', '')` is `['']`). */
  function Split(s: string, sep: char): (parts: seq<string>)
    ensures |parts| >= 1
  {
    if |s| == 0 then [""]
    else
      var rest := Split(s[1..], sep);
      if s[0] == sep then [""] + rest
      else [[s[0]] + rest[0]] + rest[1..]
  }

  /** `implode(sep, parts)`, the inverse of Split. */
  function Join(parts: seq<string>, sep: char): string
    requires |parts| >= 1
  {
    if |parts| == 1 then parts[0]
    else parts[0] + [sep] + Join(parts[1..], sep)
  }

  /** `ltrim(s, c)`: drops every leading `c`. */
  function TrimLeft(s: string, c: char): (r: string)
    ensures |r| <= |s| && r == s[|s| - |r|..]
    ensures forall i :: 0 <= i < |s| - |r| ==> s[i] == c
    ensures |r| == 0 || r[0] != c
  {
    if |s| > 0 && s[0] == c then TrimLeft(s[1..], c) else s
  }

  /** `rtrim(s, c)`: drops every trailing `c`. */
  function TrimRight(s: string, c: char): (r: string)
    ensures |r| <= |s| && r == s[..|r|]
    ensures forall i :: |r| <= i < |s| ==> s[i] == c
    ensures |r| == 0 || r[|r| - 1] != c
  {
    if |s| > 0 && s[|s| - 1] == c then TrimRight(s[..|s| - 1], c) else s
  }

  /** `trim(s, c)`: drops every leading and every trailing `c`. */
  function Trim(s: string, c: char): string {
    TrimRight(TrimLeft(s, c), c)
  }

  predicate IsUpper(ch: char) {
    'A' <= ch <= 'Z'
  }

  predicate IsLower(ch: char) {
    'a' <= ch <= 'z'
  }

  function LowerChar(ch: char): char {
    if IsUpper(ch) then (ch as int + 32) as char else ch
  }

  function UpperChar(ch: char): char {
    if IsLower(ch) then (ch as int - 32) as char else ch
  }

  /** `strtolower` on ASCII letters; other characters are kept. */
  function Lower(s: string): string {
    seq(|s|, i requires 0 <= i < |s| => LowerChar(s[i]))
  }

  // ---------------------------------------------------------------------
  // explode and implode are inverse to each other

  lemma {:induction false} SplitThenJoin(s: string, sep: char)
    ensures Join(Split(s, sep), sep) == s
  {
    if |s| > 0 {
      var rest := Split(s[1..], sep);
      SplitThenJoin(s[1..], sep);
      if s[0] == sep {
        assert ([""] + rest)[1..] == rest;
      } else if |rest| > 1 {
        var parts := [[s[0]] + rest[0]] + rest[1..];
        assert parts[1..] == rest[1..];
        assert Join(rest, sep) == rest[0] + [sep] + Join(rest[1..], sep);
      }
    }
  }

  lemma {:induction false} SplitWithoutSeparator(s: string, sep: char)
    requires sep !in s
    ensures Split(s, sep) == [s]
  {
    if |s| > 0 {
      SplitWithoutSeparator(s[1..], sep);
      assert [s[0]] + s[1..] == s;
    }
  }

  lemma {:induction false} SplitAtSeparator(x: string, sep: char, y: string)
    requires sep !in x
    ensures Split(x + [sep] + y, sep) == [x] + Split(y, sep)
  {
    if |x| == 0 {
      assert x + [sep] + y == [sep] + y;
      assert ([sep] + y)[1..] == y;
    } else {
      assert (x + [sep] + y)[1..] == x[1..] + [sep] + y;
      SplitAtSeparator(x[1..], sep, y);
      assert [x[0]] + x[1..] == x;
    }
  }

  lemma {:induction false} JoinThenSplit(parts: seq<string>, sep: char)
    requires |parts| >= 1
    requires forall k :: 0 <= k < |parts| ==> sep !in parts[k]
    ensures Split(Join(parts, sep), sep) == parts
  {
    if |parts| == 1 {
      SplitWithoutSeparator(parts[0], sep);
    } else {
      JoinThenSplit(parts[1..], sep);
      SplitAtSeparator(parts[0], sep, Join(parts[1..], sep));
      assert [parts[0]] + parts[1..] == parts;
    }
  }

  /** The last piece is whatever follows the last separator. */
  lemma {:induction false} SplitLast(x: string, sep: char, y: string)
    requires sep !in y
    ensures |Split(x + [sep] + y, sep)| >= 2
    ensures Split(x + [sep] + y, sep)[|Split(x + [sep] + y, sep)| - 1] == y
  {
    if |x| == 0 {
      assert x + [sep] + y == [sep] + y;
      assert ([sep] + y)[1..] == y;
      SplitWithoutSeparator(y, sep);
    } else {
      assert (x + [sep] + y)[0] == x[0];
      assert (x + [sep] + y)[1..] == x[1..] + [sep] + y;
      SplitLast(x[1..], sep, y);
    }
  }

  /** explode yields one more piece than there are separators. */
  lemma {:induction false} SplitCount(s: string, sep: char)
    ensures |Split(s, sep)| == multiset(s)[sep] + 1
  {
    if |s| > 0 {
      SplitCount(s[1..], sep);
      assert s == [s[0]] + s[1..];
      assert multiset(s) == multiset([s[0]]) + multiset(s[1..]);
    }
  }

  // ---------------------------------------------------------------------
  // str_replace

  /** Nothing to replace: the subject comes back unchanged. */
  lemma {:induction false} ReplaceAllAbsent(s: string, search: string, replacement: string)
    requires !Contains(s, search)
    ensures ReplaceAll(s, search, replacement) == s
  {
    if |search| > 0 && |s| >= |search| {
      assert s[..|search|] != search;
      ReplaceAllAbsent(s[1..], search, replacement);
      assert [s[0]] + s[1..] == s;
    }
  }

  /** A string without `t` has no occurrence of it at any position. */
  lemma {:induction false} AbsentAt(s: string, t: string, i: nat)
    requires i <= |s| && !Contains(s, t)
    ensures !StartsWith(s[i..], t)
  {
    if i > 0 {
      assert s[1..][i - 1..] == s[i..];
      AbsentAt(s[1..], t, i - 1);
    }
  }

  /** A string lacking one of `t`'s characters does not contain `t`. */
  lemma {:induction false} MissingCharNotContained(s: string, t: string, c: char)
    requires c in t && c !in s
    ensures !Contains(s, t)
  {
    var k :| 0 <= k < |t| && t[k] == c;
    if |t| <= |s| {
      assert s[..|t|][k] == s[k] != t[k];
    }
    if |s| > 0 {
      MissingCharNotContained(s[1..], t, c);
    }
  }

  /** No occurrence of `search` starts inside `x` when `x` has none of its
      own and the character after `x` could only open one. */
  lemma NoStraddle(x: string, z: string, search: string)
    requires !Contains(x, search) && |z| > 0
    requires forall j :: 0 < j < |search| ==> search[j] != z[0]
    ensures forall i :: 0 <= i < |x| ==> !StartsWith((x + z)[i..], search)
  {
    forall i | 0 <= i < |x| ensures !StartsWith((x + z)[i..], search) {
      var w := (x + z)[i..];
      if i + |search| <= |x| {
        AbsentAt(x, search, i);
        assert x[i..][..|search|] == w[..|search|];
      } else if |search| <= |w| {
        var j := |x| - i;
        assert w[..|search|][j] == z[0] != search[j];
      }
    }
  }

  /** `str_replace` passes over a prefix in which no occurrence starts. */
  lemma {:induction false} ReplaceAllSkipsPrefix(x: string, z: string, search: string, replacement: string)
    requires |search| > 0
    requires forall i :: 0 <= i < |x| ==> !StartsWith((x + z)[i..], search)
    ensures ReplaceAll(x + z, search, replacement) == x + ReplaceAll(z, search, replacement)
  {
    if |x| > 0 {
      var s := x + z;
      assert !StartsWith(s[0..], search);
      assert s[0..] == s;
      assert s[1..] == x[1..] + z;
      forall i | 0 <= i < |x[1..]| ensures !StartsWith((x[1..] + z)[i..], search) {
        assert (x[1..] + z)[i..] == s[i + 1..];
      }
      ReplaceAllSkipsPrefix(x[1..], z, search, replacement);
      if |s| >= |search| {
        assert ReplaceAll(s, search, replacement) == [s[0]] + ReplaceAll(s[1..], search, replacement);
      } else {
        assert ReplaceAll(s, search, replacement) == s;
        assert |z| < |search|;
        assert ReplaceAll(z, search, replacement) == z;
      }
      assert [x[0]] + x[1..] == x;
    } else {
      assert x + z == z;
    }
  }

  /** Replacing a string by itself changes nothing. */
  lemma {:induction false} ReplaceAllSelf(s: string, search: string)
    ensures ReplaceAll(s, search, search) == s
  {
    if |search| > 0 && |s| >= |search| {
      if s[..|search|] == search {
        ReplaceAllSelf(s[|search|..], search);
        assert s[..|search|] + s[|search|..] == s;
      } else {
        ReplaceAllSelf(s[1..], search);
        assert [s[0]] + s[1..] == s;
      }
    }
  }

  /** Replacing a single character by text that does not contain it removes
      every occurrence of that character. */
  lemma {:induction false} ReplaceAllRemovesChar(s: string, ch: char, replacement: string)
    requires ch !in replacement
    ensures ch !in ReplaceAll(s, [ch], replacement)
  {
    if |s| >= 1 {
      ReplaceAllRemovesChar(s[1..], ch, replacement);
    }
  }

  /** Replacing single characters by single characters never removes or
      inserts one. */
  lemma {:induction false} ReplaceAllCharLength(s: string, ch: char, other: char)
    ensures |ReplaceAll(s, [ch], [other])| == |s|
  {
    if |s| >= 1 {
      ReplaceAllCharLength(s[1..], ch, other);
    }
  }

  /** An upper-case ASCII letter never survives `Lower`. */
  lemma LowerHasNoUpper(s: string)
    ensures forall i :: 0 <= i < |s| ==> !IsUpper(Lower(s)[i])
  {
  }

  /** Every character `str_replace` produces comes from the subject or from
      the replacement. */
  lemma {:induction false} ReplaceAllChars(s: string, search: string, replacement: string)
    ensures forall c :: c in ReplaceAll(s, search, replacement) ==> c in s || c in replacement
  {
    if |search| > 0 && |s| >= |search| {
      if s[..|search|] == search {
        ReplaceAllChars(s[|search|..], search, replacement);
        assert forall c :: c in s[|search|..] ==> c in s;
      } else {
        ReplaceAllChars(s[1..], search, replacement);
        assert forall c :: c in s[1..] ==> c in s;
      }
    }
  }

  /** A one-character string occurs exactly where the character does. */
  lemma {:induction false} ContainsChar(s: string, ch: char)
    ensures Contains(s, [ch]) <==> ch in s
  {
    if |s| > 0 {
      ContainsChar(s[1..], ch);
      assert s == [s[0]] + s[1..];
    }
  }

  /** A character that occurs once is replaced at that one place. */
  lemma ReplaceCharOnce(x: string, c: char, y: string, replacement: string)
    requires c !in x && c !in y
    ensures ReplaceAll(x + [c] + y, [c], replacement) == x + replacement + y
  {
    var z := [c] + y;
    assert x + [c] + y == x + z;
    assert ReplaceAll(x + z, [c], replacement) == x + ReplaceAll(z, [c], replacement) by {
      ContainsChar(x, c);
      NoStraddle(x, z, [c]);
      ReplaceAllSkipsPrefix(x, z, [c], replacement);
    }
    assert ReplaceAll(z, [c], replacement) == replacement + y by {
      assert z[..1] == [c] && z[1..] == y;
      ContainsChar(y, c);
      ReplaceAllAbsent(y, [c], replacement);
    }
  }

  /** `strtolower` works character by character. */
  lemma LowerConcat(a: string, b: string)
    ensures Lower(a + b) == Lower(a) + Lower(b)
  {
  }

  /** Text without upper-case letters is its own lower-case form. */
  lemma LowerKeeps(s: string)
    requires forall i :: 0 <= i < |s| ==> !IsUpper(s[i])
    ensures Lower(s) == s
  {
  }
}
