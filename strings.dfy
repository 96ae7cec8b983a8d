/**
 The handful of Python `str` operations the deployment script relies on, with
 Python's semantics written out: substring test, `replace(pat, "")`,
 `split(sep, 1)` and slicing `s[n:]`.
 */
module Strings {

  /** Python's `pat in s`: `pat` occurs in `s` as a contiguous block. */
  predicate Occurs(pat: string, s: string)
    decreases |s|
  {
    pat <= s || (s != [] && Occurs(pat, s[1..]))
  }

  /**
   Python's `s.replace(pat, "")`: scanning from the left, every occurrence of
   `pat` that does not overlap an earlier removed one is dropped. An empty
   `pat` leaves `s` as it is.
   */
  function RemoveAll(s: string, pat: string): (r: string)
    ensures |r| <= |s|
    ensures !Occurs(pat, s) ==> r == s
    decreases |s|
  {
    if pat == [] || s == [] then s
    else if pat <= s then RemoveAll(s[|pat|..], pat)
    else [s[0]] + RemoveAll(s[1..], pat)
  }

  /**
   Python's `s.split(sep, 1)[0]` for a one-character separator: the text
   before the first `sep`, or all of `s` when `sep` does not occur.
   */
  function Before(s: string, sep: char): (r: string)
    ensures r <= s
    ensures sep !in r
    ensures |r| < |s| ==> s[|r|] == sep
    ensures |r| == |s| <==> sep !in s
  {
    if s == [] || s[0] == sep then [] else [s[0]] + Before(s[1..], sep)
  }

  /**
   Python's `s.split(sep, 1)[1]`: the text after the first `sep`. Python
   raises `IndexError` when `sep` does not occur, hence the precondition.
   */
  function After(s: string, sep: char): (r: string)
    requires sep in s
    ensures s == Before(s, sep) + [sep] + r
  {
    var b := Before(s, sep);
    assert |b| < |s|;
    assert s == s[..|b|] + [s[|b|]] + s[|b| + 1..];
    s[|b| + 1..]
  }

  /**
   Python's `s[n:]`: `s` without its first `n` characters; a string of at
   most `n` characters gives "".
   */
  function DropFirst(s: string, n: nat): (r: string)
    ensures |r| == if |s| <= n then 0 else |s| - n
    ensures r == s[|s| - |r|..]
  {
    if |s| <= n then "" else s[n..]
  }

  /** A block longer than the text cannot occur in it. */
  lemma OccursNeedsRoom(pat: string, s: string)
    requires |s| < |pat|
    ensures !Occurs(pat, s)
    decreases |s|
  {
    if s != [] {
      OccursNeedsRoom(pat, s[1..]);
    }
  }

  /** Text that contains no first character of `pat` passes through the scan unchanged. */
  lemma {:induction false} RemoveAllSkipsPrefix(p: string, s: string, pat: string)
    requires pat != [] && pat[0] !in p
    ensures RemoveAll(p + s, pat) == p + RemoveAll(s, pat)
  {
    if p != [] {
      assert (p + s)[0] == p[0] && (p + s)[1..] == p[1..] + s;
      assert (p + s)[0] != pat[0];
      RemoveAllSkipsPrefix(p[1..], s, pat);
      assert [p[0]] + p[1..] == p;
    } else {
      assert p + s == s;
    }
  }

  /**
   Splitting undoes joining: for a head without the separator, the text
   before and after the first separator of `head + [sep] + tail` are `head`
   and `tail`.
   */
  lemma {:induction false} SplitJoin(head: string, sep: char, tail: string)
    requires sep !in head
    ensures Before(head + [sep] + tail, sep) == head
    ensures After(head + [sep] + tail, sep) == tail
  {
    var s := head + [sep] + tail;
    if head == [] {
      assert s[0] == sep;
    } else {
      assert s[0] == head[0] && s[1..] == head[1..] + [sep] + tail;
      SplitJoin(head[1..], sep, tail);
      assert [head[0]] + head[1..] == head;
    }
  }

  /** Splitting at the first separator and taking the head is idempotent. */
  lemma BeforeIdempotent(s: string, sep: char)
    ensures Before(Before(s, sep), sep) == Before(s, sep)
  {
  }

  /** `replace` scans left to right and never reuses removed text: "aaa" minus "aa" is "a". */
  lemma RemoveAllLeftToRight()
    ensures RemoveAll("aaa", "aa") == "a"
    ensures RemoveAll("abab", "ab") == ""
  {
  }

  /**
   One step of the scan: when no occurrence of `pat` starts inside `pre`, the
   scan over `pre + pat + post` keeps `pre`, drops this `pat`, and goes on
   with `post`. Together with the identity on text without `pat`, this
   describes `replace(pat, "")` for any number of occurrences; and since
   `pre` is joined to what is left of `post`, removal can create a new
   occurrence.
   */
  lemma {:induction false} RemoveAllJoin(pre: string, pat: string, post: string)
    requires pat != []
    requires forall k :: 0 <= k < |pre| ==> !(pat <= pre[k..] + pat + post)
    ensures RemoveAll(pre + pat + post, pat) == pre + RemoveAll(post, pat)
  {
    if pre == [] {
      assert pre + pat + post == pat + post;
      assert (pat + post)[|pat|..] == post;
    } else {
      var s := pre + pat + post;
      assert pre[0..] == pre;
      assert s[0] == pre[0] && s[1..] == pre[1..] + pat + post;
      forall k | 0 <= k < |pre[1..]| ensures !(pat <= pre[1..][k..] + pat + post) {
        assert pre[1..][k..] == pre[k + 1..];
      }
      RemoveAllJoin(pre[1..], pat, post);
      assert [pre[0]] + (pre[1..] + RemoveAll(post, pat)) == pre + RemoveAll(post, pat);
    }
  }
}
