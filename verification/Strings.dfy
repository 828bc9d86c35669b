/** The string operations the update client relies on: Rust's notion of
    whitespace, `str::trim`, `str::split_whitespace`, `str::starts_with`, and
    splitting and joining on a separator character. */
module Strings {

  /** Unicode's White_Space property, which Rust's `char::is_whitespace`
      (and therefore `trim` and `split_whitespace`) uses. */
  predicate IsWhitespace(c: char) {
    || ('\U{0009}' <= c <= '\U{000D}')
    || c == ' '
    || c == '\U{0085}'
    || c == '\U{00A0}'
    || c == '\U{1680}'
    || ('\U{2000}' <= c <= '\U{200A}')
    || c == '\U{2028}'
    || c == '\U{2029}'
    || c == '\U{202F}'
    || c == '\U{205F}'
    || c == '\U{3000}'
  }

  predicate AllWhitespace(s: string) {
    forall i :: 0 <= i < |s| ==> IsWhitespace(s[i])
  }

  predicate NoWhitespace(s: string) {
    forall i :: 0 <= i < |s| ==> !IsWhitespace(s[i])
  }

  predicate StartsWith(s: string, prefix: string) {
    |prefix| <= |s| && s[..|prefix|] == prefix
  }

  /** The length of the whitespace run that s starts with. */
  function LeadingWhitespace(s: string): (n: nat)
    ensures n <= |s|
    ensures AllWhitespace(s[..n])
    ensures n < |s| ==> !IsWhitespace(s[n])
    decreases |s|
  {
    if |s| > 0 && IsWhitespace(s[0]) then
      var n := 1 + LeadingWhitespace(s[1..]);
      assert forall i :: 1 <= i < n ==> s[..n][i] == s[1..][..n - 1][i - 1];
      n
    else
      0
  }

  /** The index where the whitespace run that s ends with begins. */
  function TrailingWhitespace(s: string): (j: nat)
    ensures j <= |s|
    ensures AllWhitespace(s[j..])
    ensures j > 0 ==> !IsWhitespace(s[j - 1])
    decreases |s|
  {
    if |s| > 0 && IsWhitespace(s[|s| - 1]) then
      var j := TrailingWhitespace(s[..|s| - 1]);
      assert forall i :: j <= i < |s| - 1 ==> s[i] == s[..|s| - 1][i];
      j
    else
      |s|
  }

  /** The length of the run of non-whitespace characters that s starts with. */
  function WordLength(s: string): (n: nat)
    ensures n <= |s|
    ensures NoWhitespace(s[..n])
    ensures n < |s| ==> IsWhitespace(s[n])
    decreases |s|
  {
    if |s| > 0 && !IsWhitespace(s[0]) then
      var n := 1 + WordLength(s[1..]);
      assert forall i :: 1 <= i < n ==> s[..n][i] == s[1..][..n - 1][i - 1];
      n
    else
      0
  }

  /** s without its leading and trailing whitespace (Rust's `str::trim`). */
  function Trim(s: string): (t: string)
    ensures |t| > 0 ==> !IsWhitespace(t[0]) && !IsWhitespace(t[|t| - 1])
  {
    var u := s[LeadingWhitespace(s)..];
    u[..TrailingWhitespace(u)]
  }

  /** The whitespace-separated words of s, in order (Rust's
      `str::split_whitespace`). */
  function Words(s: string): seq<string>
    decreases |s|
  {
    var u := s[LeadingWhitespace(s)..];
    if u == [] then []
    else
      var n := WordLength(u);
      assert n > 0 by {
        assert u[0] == s[LeadingWhitespace(s)];
      }
      [u[..n]] + Words(u[n..])
  }

  /** Every element is a non-empty run without whitespace. */
  predicate AreWords(ws: seq<string>) {
    forall k :: 0 <= k < |ws| ==> |ws[k]| > 0 && NoWhitespace(ws[k])
  }

  /** The words are non-empty runs without whitespace, and there are none
      exactly when the text is all whitespace. */
  lemma {:induction false} WordsShape(s: string)
    ensures AreWords(Words(s))
    ensures Words(s) == [] <==> AllWhitespace(s)
    decreases |s|
  {
    var n0 := LeadingWhitespace(s);
    var u := s[n0..];
    if u == [] {
      assert s == s[..n0];
    } else {
      var n := WordLength(u);
      assert u[0] == s[n0];
      assert !AllWhitespace(s);
      var first, more := u[..n], Words(u[n..]);
      WordsShape(u[n..]);
      assert |first| > 0 && NoWhitespace(first);
      var ws := [first] + more;
      assert Words(s) == ws;
      forall k | 0 <= k < |ws| ensures |ws[k]| > 0 && NoWhitespace(ws[k]) {
        if k > 0 {
          assert ws[k] == more[k - 1];
        }
      }
    }
  }

  /** The index of the first c in s, or |s| when s has none. */
  function IndexOf(s: string, c: char): (i: nat)
    ensures i <= |s|
    ensures c !in s[..i]
    ensures i < |s| ==> s[i] == c
    decreases |s|
  {
    if |s| == 0 || s[0] == c then 0
    else
      var i := 1 + IndexOf(s[1..], c);
      assert s[..i] == [s[0]] + s[1..][..i - 1];
      i
  }

  /** The pieces of s between occurrences of sep (Rust's `str::split` on a
      character). There is always at least one piece. */
  function Split(s: string, sep: char): (parts: seq<string>)
    ensures |parts| >= 1
    ensures forall k :: 0 <= k < |parts| ==> sep !in parts[k]
    decreases |s|
  {
    var i := IndexOf(s, sep);
    if i == |s| then
      assert s[..i] == s;
      [s]
    else
      [s[..i]] + Split(s[i + 1..], sep)
  }

  /** The pieces laid end to end with sep between neighbours. */
  function Join(parts: seq<string>, sep: char): string
    requires |parts| >= 1
  {
    if |parts| == 1 then parts[0] else parts[0] + [sep] + Join(parts[1..], sep)
  }

  /** The contracts of LeadingWhitespace pin its result down: the first
      non-whitespace index, or |s|. */
  lemma LeadingWhitespaceUnique(s: string, k: nat)
    requires k <= |s| && AllWhitespace(s[..k])
    requires k < |s| ==> !IsWhitespace(s[k])
    ensures LeadingWhitespace(s) == k
  {
    var n := LeadingWhitespace(s);
    assert forall i :: 0 <= i < k ==> IsWhitespace(s[i]) by {
      forall i | 0 <= i < k ensures IsWhitespace(s[i]) { assert s[..k][i] == s[i]; }
    }
    assert forall i :: 0 <= i < n ==> IsWhitespace(s[i]) by {
      forall i | 0 <= i < n ensures IsWhitespace(s[i]) { assert s[..n][i] == s[i]; }
    }
  }

  lemma {:induction false} TrailingWhitespaceUnique(s: string, k: nat)
    requires k <= |s| && AllWhitespace(s[k..])
    requires k > 0 ==> !IsWhitespace(s[k - 1])
    ensures TrailingWhitespace(s) == k
    decreases |s|
  {
    assert forall i :: k <= i < |s| ==> IsWhitespace(s[i]) by {
      forall i | k <= i < |s| ensures IsWhitespace(s[i]) { assert s[k..][i - k] == s[i]; }
    }
    if |s| > 0 && IsWhitespace(s[|s| - 1]) {
      var s' := s[..|s| - 1];
      assert forall i :: 0 <= i < |s'[k..]| ==> s'[k..][i] == s[k + i];
      TrailingWhitespaceUnique(s', k);
    }
  }

  lemma WordLengthUnique(s: string, k: nat)
    requires k <= |s| && NoWhitespace(s[..k])
    requires k < |s| ==> IsWhitespace(s[k])
    ensures WordLength(s) == k
  {
    var n := WordLength(s);
    assert forall i :: 0 <= i < k ==> !IsWhitespace(s[i]) by {
      forall i | 0 <= i < k ensures !IsWhitespace(s[i]) { assert s[..k][i] == s[i]; }
    }
    assert forall i :: 0 <= i < n ==> !IsWhitespace(s[i]) by {
      forall i | 0 <= i < n ensures !IsWhitespace(s[i]) { assert s[..n][i] == s[i]; }
    }
  }

  /** Trim only removes whitespace: s is the trimmed text with a whitespace
      run on either side. */
  lemma TrimRemovesOnlyWhitespace(s: string) returns (pre: string, post: string)
    ensures AllWhitespace(pre) && AllWhitespace(post)
    ensures s == pre + Trim(s) + post
  {
    var n := LeadingWhitespace(s);
    var u := s[n..];
    var j := TrailingWhitespace(u);
    pre, post := s[..n], u[j..];
    assert u == u[..j] + u[j..];
    assert s == s[..n] + u;
  }

  /** Trim removes exactly the padding: text with no whitespace at either
      end survives any whitespace padding unchanged. */
  lemma {:induction false} TrimPadded(pre: string, t: string, post: string)
    requires AllWhitespace(pre) && AllWhitespace(post)
    requires |t| > 0 ==> !IsWhitespace(t[0]) && !IsWhitespace(t[|t| - 1])
    ensures Trim(pre + t + post) == t
  {
    var s := pre + t + post;
    if |t| == 0 {
      assert s == pre + post;
      assert AllWhitespace(s) by {
        forall i | 0 <= i < |s| ensures IsWhitespace(s[i]) {
          if i < |pre| { assert s[i] == pre[i]; } else { assert s[i] == post[i - |pre|]; }
        }
      }
      assert s[..|s|] == s;
      LeadingWhitespaceUnique(s, |s|);
      assert s[|s|..] == [];
    } else {
      assert s[..|pre|] == pre;
      assert s[|pre|] == t[0];
      LeadingWhitespaceUnique(s, |pre|);
      var u := s[|pre|..];
      assert u == t + post;
      assert u[|t|..] == post;
      assert u[|t| - 1] == t[|t| - 1];
      TrailingWhitespaceUnique(u, |t|);
      assert u[..|t|] == t;
    }
  }

  /** Trimming twice is trimming once. */
  lemma TrimIdempotent(s: string)
    ensures Trim(Trim(s)) == Trim(s)
  {
    TrimPadded([], Trim(s), []);
    assert [] + Trim(s) + [] == Trim(s);
  }

  /** split_whitespace peels off one word at a time: after leading
      whitespace, a word that ends at whitespace (or at the end of the text)
      is the first word, and the remaining words are those of the rest. */
  lemma {:induction false} WordsCons(pre: string, w: string, rest: string)
    requires AllWhitespace(pre)
    requires |w| > 0 && NoWhitespace(w)
    requires |rest| > 0 ==> IsWhitespace(rest[0])
    ensures Words(pre + w + rest) == [w] + Words(rest)
  {
    var s := pre + w + rest;
    assert s[..|pre|] == pre;
    assert s[|pre|] == w[0];
    LeadingWhitespaceUnique(s, |pre|);
    var u := s[|pre|..];
    assert u == w + rest;
    assert u[..|w|] == w;
    if |rest| > 0 {
      assert u[|w|] == rest[0];
    }
    WordLengthUnique(u, |w|);
    assert u[|w|..] == rest;
  }

  /** WordsCons with nothing before the first word. It is proved on its own
      rather than by calling WordsCons with an empty prefix, because that
      call leaves the solver to rewrite [] + w + rest, which is costly in
      the lemmas that use this one. */
  lemma WordsAfterFirst(w: string, rest: string)
    requires |w| > 0 && NoWhitespace(w)
    requires |rest| > 0 ==> IsWhitespace(rest[0])
    ensures Words(w + rest) == [w] + Words(rest)
  {
    var s := w + rest;
    assert s[..0] == [];
    assert s[0] == w[0];
    LeadingWhitespaceUnique(s, 0);
    assert s[..|w|] == w;
    if |rest| > 0 {
      assert s[|w|] == rest[0];
    }
    WordLengthUnique(s, |w|);
    assert s[|w|..] == rest;
  }

  /** The first c in a text that starts with a c-free piece followed by c. */
  lemma IndexOfAfterPrefix(p: string, c: char, rest: string)
    requires c !in p
    ensures IndexOf(p + [c] + rest, c) == |p|
  {
    var s := p + [c] + rest;
    var i := IndexOf(s, c);
    assert s[|p|] == c;
    assert forall j :: 0 <= j < |p| ==> s[j] != c by {
      forall j | 0 <= j < |p| ensures s[j] != c { assert s[j] == p[j]; }
    }
    assert forall j :: 0 <= j < i ==> s[j] != c by {
      forall j | 0 <= j < i ensures s[j] != c { assert s[..i][j] == s[j] && s[..i][j] in s[..i]; }
    }
  }

  /** Splitting undoes joining, when no piece contains the separator. */
  lemma {:induction false} SplitJoin(parts: seq<string>, sep: char)
    requires |parts| >= 1
    requires forall k :: 0 <= k < |parts| ==> sep !in parts[k]
    ensures Split(Join(parts, sep), sep) == parts
    decreases |parts|
  {
    var s := Join(parts, sep);
    if |parts| == 1 {
      var i := IndexOf(s, sep);
      assert forall j :: 0 <= j < |s| ==> s[j] != sep;
      assert s[..i] == s;
    } else {
      var tail := Join(parts[1..], sep);
      assert s == parts[0] + [sep] + tail;
      IndexOfAfterPrefix(parts[0], sep, tail);
      assert s[..|parts[0]|] == parts[0];
      assert s[|parts[0]| + 1..] == tail;
      SplitJoin(parts[1..], sep);
    }
  }

  /** Joining undoes splitting. */
  lemma {:induction false} JoinSplit(s: string, sep: char)
    ensures Join(Split(s, sep), sep) == s
    decreases |s|
  {
    var i := IndexOf(s, sep);
    if i == |s| {
      assert s[..i] == s;
    } else {
      var parts := Split(s, sep);
      assert parts == [s[..i]] + Split(s[i + 1..], sep);
      assert parts[1..] == Split(s[i + 1..], sep);
      JoinSplit(s[i + 1..], sep);
      assert s == s[..i] + [sep] + s[i + 1..];
    }
  }
}
