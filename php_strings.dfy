/**
  The PHP string built-ins the two engines use, on byte strings.

  A `string` here is a sequence of bytes: each `char` stands for one byte,
  as PHP's `strlen`, `substr`, `trim` and `str_replace` see them.
 */
module PhpStrings {

  /** The characters `trim`, `ltrim` and `rtrim` strip when given no list:
      space, tab, line feed, carriage return, NUL and vertical tab. */
  predicate IsTrimChar(c: char) {
    c == ' ' || c == '\t' || c == '\n' || c == '\r' || c == '\0' || c == '\U{000B}'
  }

  predicate StartsWith(s: string, prefix: string) {
    |prefix| <= |s| && s[..|prefix|] == prefix
  }

  predicate EndsWith(s: string, suffix: string) {
    |suffix| <= |s| && s[|s| - |suffix|..] == suffix
  }

  /** `rtrim($s)`: the longest prefix of `s` after which only trim characters follow. */
  function RTrim(s: string): (r: string)
    ensures |r| <= |s| && r == s[..|r|]
    ensures |r| > 0 ==> !IsTrimChar(r[|r| - 1])
    ensures forall k | |r| <= k < |s| :: IsTrimChar(s[k])
  {
    if |s| > 0 && IsTrimChar(s[|s| - 1]) then
      var t := s[..|s| - 1];
      var r := RTrim(t);
      assert t[..|r|] == s[..|r|];
      assert forall k | |r| <= k < |t| :: t[k] == s[k];
      r
    else s
  }

  /** `ltrim($s)`: the longest suffix of `s` before which only trim characters stand. */
  function LTrim(s: string): (r: string)
    ensures |r| <= |s| && r == s[|s| - |r|..]
    ensures |r| > 0 ==> !IsTrimChar(r[0])
    ensures forall k | 0 <= k < |s| - |r| :: IsTrimChar(s[k])
  {
    if |s| > 0 && IsTrimChar(s[0]) then
      var t := s[1..];
      var r := LTrim(t);
      assert t[|t| - |r|..] == s[|s| - |r|..];
      assert forall k | 0 <= k < |t| - |r| :: t[k] == s[k + 1];
      r
    else s
  }

  /** `ltrim(rtrim($s))`, as the restore loop applies it to each line. */
  function Trim(s: string): string {
    LTrim(RTrim(s))
  }

  /** Trimming removes exactly a run of trim characters on either side of a
      text that neither starts nor ends with one. */
  lemma TrimAround(pre: string, x: string, post: string)
    requires forall k | 0 <= k < |pre| :: IsTrimChar(pre[k])
    requires forall k | 0 <= k < |post| :: IsTrimChar(post[k])
    requires |x| > 0 && !IsTrimChar(x[0]) && !IsTrimChar(x[|x| - 1])
    ensures Trim(pre + x + post) == x
  {
    var s := pre + x + post;
    var n := |pre| + |x|;
    assert !IsTrimChar(s[n - 1]) by { assert s[n - 1] == x[|x| - 1]; }
    forall k | n <= k < |s| ensures IsTrimChar(s[k]) {
      assert s[k] == post[k - n];
    }
    var r := RTrim(s);
    assert |r| == n;
    assert r == pre + x by { assert s[..n] == pre + x; }
    assert !IsTrimChar(r[|pre|]) by { assert r[|pre|] == x[0]; }
    forall k | 0 <= k < |pre| ensures IsTrimChar(r[k]) {
      assert r[k] == pre[k];
    }
    var l := LTrim(r);
    assert |l| == |x|;
    assert r[|pre|..] == x;
  }

  /** A text with no trim character at either end is its own trim. */
  lemma TrimKeeps(x: string)
    requires |x| > 0 && !IsTrimChar(x[0]) && !IsTrimChar(x[|x| - 1])
    ensures Trim(x) == x
  {
    TrimAround("", x, "");
    assert "" + x + "" == x;
  }

  /** Every string of a sequence, one after the other. */
  function Concat(xs: seq<string>): string {
    if |xs| == 0 then "" else xs[0] + Concat(xs[1..])
  }

  lemma ConcatCons(x: string, xs: seq<string>)
    ensures Concat([x] + xs) == x + Concat(xs)
  {
    assert ([x] + xs)[0] == x;
    assert ([x] + xs)[1..] == xs;
  }

  lemma AppendAssoc(a: string, b: string, c: string)
    ensures (a + b) + c == a + (b + c)
  {
  }

  lemma {:induction false} ConcatAppend(a: seq<string>, b: seq<string>)
    ensures Concat(a + b) == Concat(a) + Concat(b)
  {
    if |a| == 0 {
      assert a + b == b;
    } else {
      assert (a + b)[1..] == a[1..] + b;
      ConcatAppend(a[1..], b);
    }
  }

  /** `implode($sep, $xs)`. */
  function Implode(sep: string, xs: seq<string>): string {
    if |xs| == 0 then ""
    else if |xs| == 1 then xs[0]
    else xs[0] + sep + Implode(sep, xs[1..])
  }

  /** Imploding two or more parts: the first part, the separator, the rest. */
  lemma ImplodeCons(sep: string, xs: seq<string>, rest: string)
    requires |xs| > 1
    ensures Implode(sep, xs) + rest == xs[0] + (sep + (Implode(sep, xs[1..]) + rest))
  {
  }

  /** `implode` introduces no character that neither the separator nor a part holds. */
  lemma {:induction false} ImplodeAvoids(c: char, sep: string, xs: seq<string>)
    requires c !in sep
    requires forall i | 0 <= i < |xs| :: c !in xs[i]
    ensures c !in Implode(sep, xs)
  {
    if |xs| > 1 {
      ImplodeAvoids(c, sep, xs[1..]);
    }
  }

  /** `explode($sep, $s)` for a one-byte separator: the pieces between separators,
      always at least one (the empty input gives one empty piece). */
  function Explode(sep: char, s: string): (r: seq<string>)
    ensures |r| >= 1
    ensures forall i | 0 <= i < |r| :: sep !in r[i]
    ensures Implode([sep], r) == s
    decreases |s|
  {
    if |s| == 0 then [""]
    else
      var rest := Explode(sep, s[1..]);
      if s[0] == sep then
        ImplodeHead([sep], [sep], [""] + rest);
        assert ([""] + rest)[0] == "" && ([""] + rest)[1..] == rest;
        assert s == [sep] + s[1..];
        [""] + rest
      else
        ImplodeHead([sep], [s[0]], rest);
        assert s == [s[0]] + s[1..];
        [[s[0]] + rest[0]] + rest[1..]
  }

  /** Text put in front of the first part is in front of the whole. */
  lemma ImplodeHead(sep: string, p: string, xs: seq<string>)
    requires |xs| >= 1
    ensures Implode(sep, [p + xs[0]] + xs[1..]) == p + Implode(sep, xs)
  {
    var ys := [p + xs[0]] + xs[1..];
    assert ys[0] == p + xs[0] && ys[1..] == xs[1..];
  }

  /** A text without the separator explodes into itself alone. */
  lemma {:induction false} ExplodeNone(sep: char, p: string)
    requires sep !in p
    ensures Explode(sep, p) == [p]
    decreases |p|
  {
    if |p| > 0 {
      ExplodeNone(sep, p[1..]);
      assert [p[0]] + p[1..] == p;
    }
  }

  /** A separator-free piece followed by the separator starts a new piece. */
  lemma {:induction false} ExplodePiece(sep: char, p: string, s: string)
    requires sep !in p
    ensures Explode(sep, p + [sep] + s) == [p] + Explode(sep, s)
    decreases |p|
  {
    if |p| == 0 {
      assert p + [sep] + s == [sep] + s;
      assert ([sep] + s)[1..] == s;
    } else {
      assert (p + [sep] + s)[1..] == p[1..] + [sep] + s;
      ExplodePiece(sep, p[1..], s);
      assert [p[0]] + p[1..] == p;
    }
  }

  /** The converse of Explode's contract: imploding separator-free pieces and
      exploding again gives the pieces back. */
  lemma {:induction false} ExplodeImplode(sep: char, xs: seq<string>)
    requires |xs| >= 1
    requires forall i | 0 <= i < |xs| :: sep !in xs[i]
    ensures Explode(sep, Implode([sep], xs)) == xs
  {
    if |xs| == 1 {
      ExplodeNone(sep, xs[0]);
    } else {
      ExplodeImplode(sep, xs[1..]);
      ExplodePiece(sep, xs[0], Implode([sep], xs[1..]));
      assert [xs[0]] + xs[1..] == xs;
    }
  }

  /** `str_replace($c, '', $s)` for a one-byte needle. */
  function RemoveChar(c: char, s: string): (r: string)
    ensures c !in r
    ensures |r| <= |s|
    ensures c !in s ==> r == s
  {
    if |s| == 0 then ""
    else if s[0] == c then RemoveChar(c, s[1..])
    else
      assert s == [s[0]] + s[1..];
      [s[0]] + RemoveChar(c, s[1..])
  }

  /** `RemoveChar` keeps a character other than the needle exactly when the
      text holds it. */
  lemma {:induction false} RemoveCharKeeps(c: char, d: char, s: string)
    requires d != c
    ensures (d in RemoveChar(c, s)) <==> (d in s)
  {
    if |s| > 0 {
      RemoveCharKeeps(c, d, s[1..]);
      assert s == [s[0]] + s[1..];
    }
  }

  /** `RemoveChar` works byte by byte: it distributes over `+`, so together
      with `RemoveCharOne` it fixes the order and the number of the bytes kept. */
  lemma {:induction false} RemoveCharAppend(c: char, a: string, b: string)
    ensures RemoveChar(c, a + b) == RemoveChar(c, a) + RemoveChar(c, b)
    decreases |a|
  {
    if |a| == 0 {
      assert a + b == b;
    } else {
      assert (a + b)[0] == a[0];
      assert (a + b)[1..] == a[1..] + b;
      RemoveCharAppend(c, a[1..], b);
      if a[0] != c {
        assert [a[0]] + (RemoveChar(c, a[1..]) + RemoveChar(c, b))
          == ([a[0]] + RemoveChar(c, a[1..])) + RemoveChar(c, b);
      }
    }
  }

  /** One byte: the needle disappears, any other byte stays. */
  lemma RemoveCharOne(c: char, d: char)
    ensures RemoveChar(c, [d]) == if d == c then "" else [d]
  {
    assert [d][1..] == "";
  }

  /** `str_replace($pat, $rep, $s)`: scans left to right and replaces every
      non-overlapping occurrence of `pat`. */
  function ReplaceAll(s: string, pat: string, rep: string): string
    requires |pat| > 0
    decreases |s|
  {
    if |s| < |pat| then s
    else if s[..|pat|] == pat then rep + ReplaceAll(s[|pat|..], pat, rep)
    else [s[0]] + ReplaceAll(s[1..], pat, rep)
  }

  /** For a one-byte needle, `str_replace` works byte by byte, so it distributes over `+`. */
  lemma {:induction false} ReplaceAllAppend(a: string, b: string, pat: string, rep: string)
    requires |pat| == 1
    ensures ReplaceAll(a + b, pat, rep) == ReplaceAll(a, pat, rep) + ReplaceAll(b, pat, rep)
    decreases |a|
  {
    if |a| == 0 {
      assert a + b == b;
    } else {
      assert (a + b)[..1] == a[..1];
      assert (a + b)[1..] == a[1..] + b;
      ReplaceAllAppend(a[1..], b, pat, rep);
    }
  }

  /** A needle whose last byte never occurs in `s` is never found there. */
  lemma {:induction false} ReplaceAllAbsent(s: string, pat: string, rep: string)
    requires |pat| > 0
    requires pat[|pat| - 1] !in s
    ensures ReplaceAll(s, pat, rep) == s
    decreases |s|
  {
    if |s| >= |pat| {
      assert s[..|pat|][|pat| - 1] == s[|pat| - 1];
      ReplaceAllAbsent(s[1..], pat, rep);
      assert [s[0]] + s[1..] == s;
    }
  }

  /** The bytes `addslashes` puts a backslash in front of: quote, double quote,
      backslash and NUL. */
  predicate NeedsSlash(c: char) {
    c == '\'' || c == '"' || c == '\\' || c == '\0'
  }

  /** `addslashes` on one byte; NUL becomes the two bytes `\` `0`. */
  function SlashChar(c: char): string {
    if c == '\0' then "\\0"
    else if NeedsSlash(c) then ['\\', c]
    else [c]
  }

  /** `addslashes($s)`. */
  function AddSlashes(s: string): string {
    if |s| == 0 then "" else SlashChar(s[0]) + AddSlashes(s[1..])
  }

  /** PHP's `!$s` on a string: true for "" and for "0". */
  predicate Falsy(s: string) {
    s == "" || s == "0"
  }

  /** `substr($s, -$n, $n)`: the last `n` bytes, or all of a shorter string. */
  function SubstrTail(s: string, n: nat): (r: string)
    ensures |r| == if |s| >= n then n else |s|
    ensures EndsWith(s, r)
  {
    if |s| >= n then s[|s| - n..] else s
  }

  /** `substr($s, 0, -$n)`: all but the last `n` bytes, or the empty string. */
  function SubstrDrop(s: string, n: nat): (r: string)
    ensures |r| == if |s| >= n then |s| - n else 0
    ensures StartsWith(s, r)
  {
    if |s| >= n then s[..|s| - n] else ""
  }
}
