/**
 * The Python string built-ins the paper filter relies on, restricted to ASCII:
 * `str.lower()`, the substring test `pat in s`, `str.split()` with no argument
 * and `sep.join(parts)`.
 */
module Text {

  /** An ASCII upper-case letter. */
  predicate IsUpper(c: char) {
    'A' <= c <= 'Z'
  }

  /** Lower-cases one character: A-Z become a-z, every other character is kept. */
  function LowerChar(c: char): (d: char)
    ensures !IsUpper(d)
    ensures IsUpper(c) ==> d as int == c as int + 32
    ensures !IsUpper(c) ==> d == c
  {
    if IsUpper(c) then (c as int + 32) as char else c
  }

  /** `s.lower()` on ASCII text: every character lower-cased in place. */
  function Lower(s: string): (r: string)
    ensures |r| == |s|
    ensures forall i :: 0 <= i < |s| ==> r[i] == LowerChar(s[i])
  {
    seq(|s|, i requires 0 <= i < |s| => LowerChar(s[i]))
  }

  /** Lower-casing commutes with taking a slice. */
  lemma LowerSlice(s: string, i: nat, j: nat)
    requires i <= j <= |s|
    ensures Lower(s)[i..j] == Lower(s[i..j])
  {
    var l, r := Lower(s)[i..j], Lower(s[i..j]);
    forall k | 0 <= k < j - i ensures l[k] == r[k] {
      assert l[k] == Lower(s)[i + k] == LowerChar(s[i + k]);
      assert r[k] == LowerChar(s[i..j][k]);
    }
  }

  /** `pat` occurs in `s` starting at position `i`. */
  predicate OccursAt(s: string, pat: string, i: nat) {
    i + |pat| <= |s| && s[i..i + |pat|] == pat
  }

  /** Python's `pat in s` for two strings: `pat` is a prefix of `s` or of one of its suffixes. */
  predicate Contains(s: string, pat: string)
    decreases |s|
  {
    (|pat| <= |s| && s[..|pat|] == pat) || (s != [] && Contains(s[1..], pat))
  }

  /** The recursive substring test agrees with "occurs at some position". */
  lemma {:induction false} ContainsIff(s: string, pat: string)
    ensures Contains(s, pat) <==> exists i: nat :: OccursAt(s, pat, i)
    decreases |s|
  {
    if |pat| <= |s| && s[..|pat|] == pat {
      assert OccursAt(s, pat, 0);
    } else if s == [] {
    } else {
      ContainsIff(s[1..], pat);
      if Contains(s[1..], pat) {
        var i: nat :| OccursAt(s[1..], pat, i);
        assert s[1..][i..i + |pat|] == s[i + 1..i + 1 + |pat|];
        assert OccursAt(s, pat, i + 1);
      } else {
        forall i: nat ensures !OccursAt(s, pat, i) {
          if OccursAt(s, pat, i) {
            assert i != 0;
            assert s[1..][i - 1..i - 1 + |pat|] == s[i..i + |pat|];
            assert OccursAt(s[1..], pat, i - 1);
          }
        }
      }
    }
  }

  /** A pattern holding a character that `s` lacks does not occur in `s`. */
  lemma MissingCharNotContained(s: string, pat: string, c: char)
    requires c in pat && c !in s
    ensures !Contains(s, pat)
  {
    ContainsIff(s, pat);
    forall i: nat ensures !OccursAt(s, pat, i) {
      if i + |pat| <= |s| {
        var j :| 0 <= j < |pat| && pat[j] == c;
        assert s[i..i + |pat|][j] == s[i + j];
      }
    }
  }

  /** A lower-case character is missing from `Lower(s)` when neither it nor the
      only other character that lower-cases to it occurs in `s`. */
  lemma LowerOmits(s: string, lower: char, upper: char)
    requires lower !in s && upper !in s
    requires forall x: char :: LowerChar(x) == lower ==> x == lower || x == upper
    ensures lower !in Lower(s)
  {
    forall i | 0 <= i < |s| ensures Lower(s)[i] != lower {
      assert s[i] in s;
    }
  }

  /** The characters Python's `str.isspace()` accepts in the ASCII range:
      tab, line feed, vertical tab, form feed, carriage return, the four
      information separators (28-31) and the space. */
  predicate IsSpace(c: char) {
    var n := c as int;
    n == 32 || 9 <= n <= 13 || 28 <= n <= 31
  }

  /** `s` holds at least one character that is not whitespace. */
  predicate HasWord(s: string) {
    exists i :: 0 <= i < |s| && !IsSpace(s[i])
  }

  /** A string holding a non-space character `c` has a word. */
  lemma CharMakesWord(s: string, c: char)
    requires c in s && !IsSpace(c)
    ensures HasWord(s)
  {
  }

  /** Length of the run of non-space characters at the start of `s`. */
  function WordLength(s: string): (n: nat)
    ensures n <= |s|
    ensures forall i :: 0 <= i < n ==> !IsSpace(s[i])
    ensures n < |s| ==> IsSpace(s[n])
  {
    if s == [] || IsSpace(s[0]) then 0 else 1 + WordLength(s[1..])
  }

  /** `s.split()`: the maximal runs of non-space characters, left to right. */
  function Split(s: string): (words: seq<string>)
    ensures forall k :: 0 <= k < |words| ==> words[k] != []
    ensures forall k, j :: 0 <= k < |words| && 0 <= j < |words[k]| ==> !IsSpace(words[k][j])
    decreases |s|
  {
    if s == [] then []
    else if IsSpace(s[0]) then Split(s[1..])
    else
      var n := WordLength(s);
      [s[..n]] + Split(s[n..])
  }

  /** `s.split()` is non-empty exactly when `s` holds a non-space character. */
  lemma {:induction false} SplitNonEmptyIff(s: string)
    ensures Split(s) != [] <==> HasWord(s)
    decreases |s|
  {
    if s == [] {
    } else if IsSpace(s[0]) {
      SplitNonEmptyIff(s[1..]);
      if HasWord(s) {
        var i :| 0 <= i < |s| && !IsSpace(s[i]);
        assert s[1..][i - 1] == s[i];
      }
      if HasWord(s[1..]) {
        var i :| 0 <= i < |s[1..]| && !IsSpace(s[1..][i]);
        assert s[i + 1] == s[1..][i];
      }
    } else {
      assert !IsSpace(s[0]);
    }
  }

  /** `s.split()[-1]`: the last word of a string that has one. */
  function LastWord(s: string): (w: string)
    requires HasWord(s)
    ensures w != []
    ensures forall j :: 0 <= j < |w| ==> !IsSpace(w[j])
  {
    SplitNonEmptyIff(s);
    var words := Split(s);
    words[|words| - 1]
  }

  /** Length of `s` once its trailing whitespace is cut off (`len(s.rstrip())`). */
  function TrimmedLength(s: string): (e: nat)
    ensures e <= |s|
    ensures forall j :: e <= j < |s| ==> IsSpace(s[j])
    ensures e > 0 ==> !IsSpace(s[e - 1])
  {
    if s == [] then 0
    else if IsSpace(s[|s| - 1]) then TrimmedLength(s[..|s| - 1])
    else |s|
  }

  /** The two conditions on `TrimmedLength` pin it down. */
  lemma TrimmedLengthUnique(s: string, e: nat)
    requires e <= |s|
    requires forall j :: e <= j < |s| ==> IsSpace(s[j])
    requires e > 0 ==> !IsSpace(s[e - 1])
    ensures TrimmedLength(s) == e
  {
  }

  /**
   * `w` is the run of non-space characters that ends where the trailing
   * whitespace of `s` begins: it sits at `s[e - |w|..e]`, with `e` the trimmed
   * length, and it starts `s` or follows a whitespace character.
   */
  predicate IsTrailingWord(s: string, w: string) {
    var e := TrimmedLength(s);
    && |w| <= e
    && s[e - |w|..e] == w
    && (e == |w| || IsSpace(s[e - |w| - 1]))
  }

  /** Cutting off a prefix that leaves a word cuts as much off the trimmed length. */
  lemma TrimmedLengthOfSuffix(s: string, k: nat)
    requires k <= |s| && HasWord(s[k..])
    ensures TrimmedLength(s) == k + TrimmedLength(s[k..])
  {
    var r := s[k..];
    var e' := TrimmedLength(r);
    var i :| 0 <= i < |r| && !IsSpace(r[i]);
    assert e' > 0;
    assert r[e' - 1] == s[k + e' - 1];
    forall j | k + e' <= j < |s| ensures IsSpace(s[j]) {
      assert s[j] == r[j - k];
    }
    TrimmedLengthUnique(s, k + e');
  }

  /** A trailing word of the suffix `s[k..]` is a trailing word of `s` too,
      provided it does not run into the `k` characters cut off. */
  lemma TrailingWordOfSuffix(s: string, k: nat, w: string)
    requires k <= |s| && HasWord(s[k..]) && IsTrailingWord(s[k..], w)
    requires TrimmedLength(s[k..]) == |w| ==> k == 0 || IsSpace(s[k - 1])
    ensures IsTrailingWord(s, w)
  {
    var r := s[k..];
    var e' := TrimmedLength(r);
    assert |w| <= e' && r[e' - |w|..e'] == w;
    TrimmedLengthOfSuffix(s, k);
    var e := k + e';
    assert TrimmedLength(s) == e;
    forall j | 0 <= j < |w| ensures s[e - |w| + j] == w[j] {
      assert w[j] == r[e' - |w| + j];
    }
    assert s[e - |w|..e] == w;
    if e' != |w| {
      assert s[e - |w| - 1] == r[e' - |w| - 1];
    }
  }

  /** `s.split()[-1]` is the trailing word of `s`. */
  lemma {:induction false} LastWordIsTrailing(s: string)
    requires HasWord(s)
    ensures IsTrailingWord(s, LastWord(s))
    decreases |s|
  {
    var w := LastWord(s);
    if IsSpace(s[0]) {
      var r := s[1..];
      assert Split(s) == Split(r);
      var i :| 0 <= i < |s| && !IsSpace(s[i]);
      assert r[i - 1] == s[i];
      LastWordIsTrailing(r);
      TrailingWordOfSuffix(s, 1, w);
    } else {
      var n := WordLength(s);
      var r := s[n..];
      assert Split(s) == [s[..n]] + Split(r);
      SplitNonEmptyIff(r);
      if HasWord(r) {
        assert LastWord(r) == w;
        LastWordIsTrailing(r);
        var e' := TrimmedLength(r);
        if e' == |w| {
          assert false;
        }
        TrailingWordOfSuffix(s, n, w);
      } else {
        assert w == s[..n];
        forall j | n <= j < |s| ensures IsSpace(s[j]) {
          assert s[j] == r[j - n];
        }
        TrimmedLengthUnique(s, n);
      }
    }
  }

  /** A word without any whitespace character has no whitespace at any position. */
  lemma NoSpaceAt(w: string)
    requires forall c :: IsSpace(c) ==> c !in w
    ensures forall j :: 0 <= j < |w| ==> !IsSpace(w[j])
  {
    forall j | 0 <= j < |w| ensures !IsSpace(w[j]) {
      assert w[j] in w;
    }
  }

  /** The last word of a text ending in a space followed by a space-free word is that word. */
  lemma LastWordAfterSpace(p: string, w: string)
    requires w != []
    requires forall j :: 0 <= j < |w| ==> !IsSpace(w[j])
    ensures HasWord(p + " " + w)
    ensures LastWord(p + " " + w) == w
  {
    var s := p + " " + w;
    assert s[|s| - 1] == w[|w| - 1];
    LastWordIsTrailing(s);
    TrimmedLengthUnique(s, |s|);
    var lw := LastWord(s);
    assert IsSpace(s[|p|]);
    assert forall j :: |p| < j < |s| ==> s[j] == w[j - |p| - 1];
    assert |lw| == |w|;
    assert lw == s[|p| + 1..] == w;
  }

  /** `sep.join(parts)`. */
  function Join(parts: seq<string>, sep: string): string {
    if |parts| == 0 then ""
    else if |parts| == 1 then parts[0]
    else parts[0] + sep + Join(parts[1..], sep)
  }

  /** Sum of the lengths of `parts`. */
  function TotalLength(parts: seq<string>): nat {
    if parts == [] then 0 else |parts[0]| + TotalLength(parts[1..])
  }

  /** Joining adds exactly one separator between neighbouring parts and nothing else. */
  lemma {:induction false} JoinLength(parts: seq<string>, sep: string)
    requires parts != []
    ensures |Join(parts, sep)| == TotalLength(parts) + (|parts| - 1) * |sep|
  {
    if |parts| > 1 {
      JoinLength(parts[1..], sep);
    }
  }

  /** Joining one more part appends the separator and that part: the joined
      text lists the parts in order, one separator between neighbours. */
  lemma {:induction false} JoinAppend(parts: seq<string>, p: string, sep: string)
    requires parts != []
    ensures Join(parts + [p], sep) == Join(parts, sep) + sep + p
    decreases |parts|
  {
    if |parts| == 1 {
      assert (parts + [p])[1..] == [p];
    } else {
      assert (parts + [p])[1..] == parts[1..] + [p];
      JoinAppend(parts[1..], p, sep);
    }
  }

  /** With a non-empty separator, the joined text is empty exactly when there
      are no parts or a single empty part. */
  lemma JoinIsEmpty(parts: seq<string>, sep: string)
    requires sep != []
    ensures Join(parts, sep) == "" <==> parts == [] || parts == [""]
  {
  }
}
