/** The small pieces of Python string behaviour the captcha helpers rely on:
    ASCII digits, substring search (`m in s`) and `str.split(sep)`. */
module Text {
  import opened Wrappers

  /** An ASCII decimal digit, the characters `\d` is taken to match. */
  predicate IsDigit(c: char) {
    '0' <= c <= '9'
  }

  predicate AllDigits(s: string) {
    forall k :: 0 <= k < |s| ==> IsDigit(s[k])
  }

  /** `s.startswith(prefix)`. */
  predicate HasPrefix(s: string, prefix: string) {
    |prefix| <= |s| && s[..|prefix|] == prefix
  }

  /** `m` occurs in `s` starting at index `i`. */
  predicate OccursAt(s: string, m: string, i: int) {
    0 <= i && i + |m| <= |s| && s[i..i + |m|] == m
  }

  /** Substring search from index `i` on. */
  function ContainsFrom(s: string, m: string, i: nat): (b: bool)
    ensures b <==> exists k :: i <= k && OccursAt(s, m, k)
    decreases |s| - i
  {
    if i + |m| > |s| then false
    else if s[i..i + |m|] == m then
      assert OccursAt(s, m, i);
      true
    else ContainsFrom(s, m, i + 1)
  }

  /** Python's `m in s`. */
  function Contains(s: string, m: string): (b: bool)
    ensures b <==> exists k :: OccursAt(s, m, k)
  {
    ContainsFrom(s, m, 0)
  }

  /** A string of digits holds no string that has a non-digit first character. */
  lemma DigitsAvoid(s: string, m: string)
    requires AllDigits(s) && |m| > 0 && !IsDigit(m[0])
    ensures !Contains(s, m)
  {
  }

  // ---------------------------------------------------------------------------
  // str.split(sep) and its inverse sep.join(parts)
  // ---------------------------------------------------------------------------

  /** `sep.join(parts)`. */
  function Join(parts: seq<string>, sep: char): string
    decreases |parts|
  {
    if |parts| == 0 then ""
    else if |parts| == 1 then parts[0]
    else parts[0] + [sep] + Join(parts[1..], sep)
  }

  /** `s.split(sep)` for a one-character separator: the pieces between
      consecutive separators, never fewer than one. */
  function Split(s: string, sep: char): (parts: seq<string>)
    ensures |parts| >= 1
    ensures forall k :: 0 <= k < |parts| ==> sep !in parts[k]
    decreases |s|
  {
    if |s| == 0 then [""]
    else
      var rest := Split(s[1..], sep);
      if s[0] == sep then [""] + rest
      else [[s[0]] + rest[0]] + rest[1..]
  }

  /** Joining the pieces with the separator gives back the split string. */
  lemma {:induction false} JoinSplit(s: string, sep: char)
    ensures Join(Split(s, sep), sep) == s
    decreases |s|
  {
    if |s| > 0 {
      var rest := Split(s[1..], sep);
      JoinSplit(s[1..], sep);
      if s[0] == sep {
        assert ([""] + rest)[1..] == rest;
      } else {
        JoinConsHead(s[0], rest, sep);
      }
      assert s == [s[0]] + s[1..];
    }
  }

  /** Prepending a character to the first piece prepends it to the join. */
  lemma JoinConsHead(c: char, parts: seq<string>, sep: char)
    requires |parts| >= 1
    ensures Join([[c] + parts[0]] + parts[1..], sep) == [c] + Join(parts, sep)
  {
  }

  /** A string without the separator splits into itself alone. */
  lemma {:induction false} SplitNoSeparator(s: string, sep: char)
    requires sep !in s
    ensures Split(s, sep) == [s]
    decreases |s|
  {
    if |s| > 0 {
      SplitNoSeparator(s[1..], sep);
      assert s == [s[0]] + s[1..];
    }
  }

  /** Everything before the first separator becomes the first piece. */
  lemma {:induction false} SplitAtFirst(a: string, t: string, sep: char)
    requires sep !in a
    ensures Split(a + [sep] + t, sep) == [a] + Split(t, sep)
    decreases |a|
  {
    var s := a + [sep] + t;
    if |a| == 0 {
      assert s == [sep] + t;
      assert s[1..] == t;
    } else {
      assert s[0] == a[0] && s[0] != sep;
      assert s[1..] == a[1..] + [sep] + t;
      SplitAtFirst(a[1..], t, sep);
      var rest := Split(s[1..], sep);
      assert rest == [a[1..]] + Split(t, sep);
      assert rest[0] == a[1..] && rest[1..] == Split(t, sep);
      assert [a[0]] + a[1..] == a;
      assert Split(s, sep) == [[s[0]] + rest[0]] + rest[1..];
    }
  }

  /** Python's `s.split(sep)[k]`, or `None` where Python raises `IndexError`. */
  function Field(s: string, sep: char, k: nat): (r: Option<string>)
    ensures r.Some? ==> sep !in r.value
  {
    var parts := Split(s, sep);
    if k < |parts| then Some(parts[k]) else None
  }

  /** `[0, i)` is the first piece of `s.split(sep)`: it holds no separator and
      ends at the first separator or at the end of `s`. */
  predicate IsFirstField(s: string, sep: char, i: int) {
    0 <= i <= |s| && sep !in s[..i] && (i == |s| || s[i] == sep)
  }

  /** `[i, j)` is the second piece of `s.split(sep)`: it starts just after the
      first separator and ends at the next separator or at the end of `s`. */
  predicate IsSecondField(s: string, sep: char, i: int, j: int) {
    && 1 <= i <= j <= |s|
    && s[i - 1] == sep
    && sep !in s[..i - 1]
    && sep !in s[i..j]
    && (j == |s| || s[j] == sep)
  }

  /** The first piece of a split, located by index. */
  lemma FirstFieldBounds(s: string, sep: char, i: int)
    requires IsFirstField(s, sep, i)
    ensures Field(s, sep, 0) == Some(s[..i])
  {
    if i == |s| {
      assert s[..i] == s;
      SplitNoSeparator(s, sep);
    } else {
      assert s == s[..i] + [sep] + s[i + 1..];
      SplitAtFirst(s[..i], s[i + 1..], sep);
    }
  }

  /** The second piece of a split, located by index. */
  lemma SecondFieldBounds(s: string, sep: char, i: int, j: int)
    requires IsSecondField(s, sep, i, j)
    ensures Field(s, sep, 1) == Some(s[i..j])
  {
    var a, t := s[..i - 1], s[i..];
    assert s == a + [sep] + t by {
      assert s[i - 1..] == [s[i - 1]] + t;
      assert s == a + s[i - 1..];
    }
    SplitAtFirst(a, t, sep);
    assert t[..j - i] == s[i..j];
    FirstFieldBounds(t, sep, j - i);
  }

  /** The second piece exists exactly when `s` holds the separator. */
  lemma SecondFieldExists(s: string, sep: char)
    ensures Field(s, sep, 1).Some? <==> sep in s
  {
    if sep in s {
      var span := SecondFieldSpan(s, sep);
      SecondFieldBounds(s, sep, span.0, span.1);
    } else {
      SplitNoSeparator(s, sep);
    }
  }

  /** The first index of `sep` in `s` at or after `i`, or `|s|`. */
  function FirstIndexFrom(s: string, sep: char, i: nat): (k: nat)
    requires i <= |s|
    ensures i <= k <= |s|
    ensures sep !in s[i..k]
    ensures k == |s| || s[k] == sep
    ensures sep in s[i..] ==> k < |s|
    decreases |s| - i
  {
    if i == |s| || s[i] == sep then i
    else
      var k := FirstIndexFrom(s, sep, i + 1);
      assert s[i..k] == [s[i]] + s[i + 1..k];
      k
  }

  /** The first index of `sep` in `s`, which holds it. */
  function FirstIndex(s: string, sep: char): (k: nat)
    requires sep in s
    ensures k < |s| && s[k] == sep && sep !in s[..k]
  {
    assert s[0..] == s;
    var k := FirstIndexFrom(s, sep, 0);
    assert s[0..k] == s[..k];
    k
  }

  /** Where the second piece of `s.split(sep)` lies, when `s` holds `sep`. */
  function SecondFieldSpan(s: string, sep: char): (span: (nat, nat))
    requires sep in s
    ensures IsSecondField(s, sep, span.0, span.1)
  {
    var i := FirstIndex(s, sep) + 1;
    (i, FirstIndexFrom(s, sep, i))
  }

  /** The first piece of a split ends at one index only. */
  lemma FirstFieldUnique(s: string, sep: char, i: int, i': int)
    requires IsFirstField(s, sep, i) && IsFirstField(s, sep, i')
    ensures i == i'
  {
  }
}
