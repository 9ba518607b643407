/** Models of the Rust string operations the VM command reader is built from:
    `str::find("//")`, `str::trim` and `str::split_whitespace`.

    Strings are sequences of Unicode scalar values. Rust measures offsets into a
    `&str` in bytes; here they are character offsets, which name the same place
    in the string because the comment marker "//" is ASCII. */
module Text {

  datatype Option<T> = None | Some(value: T)

  /** Rust's `char::is_whitespace`: the Unicode White_Space property. Both
      `trim` and `split_whitespace` use this one predicate. */
  predicate IsWhitespace(c: char) {
    ('\t' <= c <= '\r') || c == ' ' || c == '\U{85}' || c == '\U{A0}' || c == '\U{1680}'
    || ('\U{2000}' <= c <= '\U{200A}') || c == '\U{2028}' || c == '\U{2029}'
    || c == '\U{202F}' || c == '\U{205F}' || c == '\U{3000}'
  }

  predicate AllWhitespace(s: string) {
    forall i | 0 <= i < |s| :: IsWhitespace(s[i])
  }

  predicate NoWhitespace(s: string) {
    forall i | 0 <= i < |s| :: !IsWhitespace(s[i])
  }

  /** The two-character comment marker "//" starts at offset i of s. */
  predicate CommentAt(s: string, i: int) {
    0 <= i < |s| - 1 && s[i] == '/' && s[i + 1] == '/'
  }

  predicate HasComment(s: string) {
    exists i | 0 <= i < |s| :: CommentAt(s, i)
  }

  /** A token as `split_whitespace` hands it out. */
  predicate IsToken(t: string) {
    t != [] && NoWhitespace(t)
  }

  /** A slice of a string without a comment marker has none either. */
  lemma SliceHasNoComment(s: string, a: nat, b: nat)
    requires a <= b <= |s|
    requires !HasComment(s)
    ensures !HasComment(s[a..b])
  {
    forall i | 0 <= i < b - a
      ensures !CommentAt(s[a..b], i)
    {
      assert !CommentAt(s, a + i);
    }
  }

  /** `s.find("//")`: the offset of the first comment marker, if any. */
  function FindComment(s: string): (r: Option<nat>)
    ensures r.Some? <==> HasComment(s)
    ensures r.Some? ==> CommentAt(s, r.value)
    ensures r.Some? ==> forall i | 0 <= i < r.value :: !CommentAt(s, i)
  {
    if |s| < 2 then None
    else if s[0] == '/' && s[1] == '/' then
      assert CommentAt(s, 0);
      Some(0)
    else
      match FindComment(s[1..])
      case None =>
        assert forall i | 1 <= i < |s| :: CommentAt(s, i) ==> CommentAt(s[1..], i - 1);
        None
      case Some(n) =>
        assert CommentAt(s[1..], n) ==> CommentAt(s, n + 1);
        assert forall i | 1 <= i < n + 1 :: CommentAt(s, i) ==> CommentAt(s[1..], i - 1);
        Some(n + 1)
  }

  /** `s.trim_start()`: drops the leading whitespace. */
  function TrimStart(s: string): (r: string)
    ensures |r| <= |s| && r == s[|s| - |r|..]
    ensures AllWhitespace(s[..|s| - |r|])
    ensures r == [] || !IsWhitespace(r[0])
  {
    if s != [] && IsWhitespace(s[0]) then
      var r := TrimStart(s[1..]);
      assert s[..|s| - |r|] == [s[0]] + s[1..][..|s| - 1 - |r|];
      r
    else s
  }

  /** `s.trim_end()`: drops the trailing whitespace. */
  function TrimEnd(s: string): (r: string)
    ensures |r| <= |s| && r == s[..|r|]
    ensures AllWhitespace(s[|r|..])
    ensures r == [] || !IsWhitespace(r[|r| - 1])
  {
    if s != [] && IsWhitespace(s[|s| - 1]) then
      var r := TrimEnd(s[..|s| - 1]);
      assert s[|r|..] == s[..|s| - 1][|r|..] + [s[|s| - 1]];
      r
    else s
  }

  /** `s.trim()`: drops the whitespace at both ends. */
  function Trim(s: string): (r: string)
    ensures r == [] <==> AllWhitespace(s)
    ensures r != [] ==> !IsWhitespace(r[0]) && !IsWhitespace(r[|r| - 1])
  {
    TrimEnd(TrimStart(s))
  }

  /** What Trim keeps is a slice of its input, so it holds no comment marker the
      input did not. */
  lemma TrimHasNoComment(s: string)
    requires !HasComment(s)
    ensures !HasComment(Trim(s))
  {
    var t := TrimStart(s);
    SliceHasNoComment(s, |s| - |t|, |s|);
    assert s[|s| - |t|..|s|] == t;
    SliceHasNoComment(t, 0, |TrimEnd(t)|);
  }

  /** The whitespace Trim removes is exactly the leading run. */
  lemma {:induction false} TrimStartOf(lead: string, rest: string)
    requires AllWhitespace(lead)
    requires rest == [] || !IsWhitespace(rest[0])
    ensures TrimStart(lead + rest) == rest
  {
    if lead != [] {
      assert (lead + rest)[1..] == lead[1..] + rest;
      TrimStartOf(lead[1..], rest);
    }
  }

  lemma {:induction false} TrimEndOf(core: string, trail: string)
    requires AllWhitespace(trail)
    requires core == [] || !IsWhitespace(core[|core| - 1])
    ensures TrimEnd(core + trail) == core
  {
    if trail != [] {
      assert (core + trail)[..|core + trail| - 1] == core + trail[..|trail| - 1];
      TrimEndOf(core, trail[..|trail| - 1]);
    }
  }

  /** Trim characterised: between whitespace runs, any core with non-whitespace ends
      is exactly what Trim keeps. */
  lemma TrimOf(lead: string, core: string, trail: string)
    requires AllWhitespace(lead) && AllWhitespace(trail)
    requires core != [] && !IsWhitespace(core[0]) && !IsWhitespace(core[|core| - 1])
    ensures Trim(lead + core + trail) == core
  {
    assert lead + core + trail == lead + (core + trail);
    TrimStartOf(lead, core + trail);
    TrimEndOf(core, trail);
  }

  function Flush(cur: string): seq<string> {
    if cur == [] then [] else [cur]
  }

  /** The tokens `split_whitespace` yields from s when the characters cur have been
      read since the last whitespace. */
  function SplitFrom(s: string, cur: string): (r: seq<string>)
    ensures r == [] <==> cur == [] && AllWhitespace(s)
  {
    if s == [] then Flush(cur)
    else if IsWhitespace(s[0]) then Flush(cur) + SplitFrom(s[1..], [])
    else SplitFrom(s[1..], cur + [s[0]])
  }

  /** `s.split_whitespace()`: the maximal whitespace-free runs of s, in order. */
  function SplitWhitespace(s: string): (r: seq<string>)
    ensures r == [] <==> AllWhitespace(s)
  {
    SplitFrom(s, [])
  }

  /** Every piece split_whitespace hands out is a non-empty run without whitespace. */
  lemma {:induction false} SplitFromTokens(s: string, cur: string)
    requires NoWhitespace(cur)
    ensures forall t | t in SplitFrom(s, cur) :: IsToken(t)
  {
    if s != [] {
      if IsWhitespace(s[0]) {
        SplitFromTokens(s[1..], []);
      } else {
        SplitFromTokens(s[1..], cur + [s[0]]);
      }
    }
  }

  lemma SplitYieldsTokens(s: string)
    ensures forall t | t in SplitWhitespace(s) :: IsToken(t)
  {
    SplitFromTokens(s, []);
  }

  /** Each token is a slice of the input, so none holds a comment marker unless the
      input did. */
  lemma {:induction false} SplitFromHasNoComment(s: string, cur: string)
    requires !HasComment(cur + s)
    ensures forall t | t in SplitFrom(s, cur) :: !HasComment(t)
  {
    if s == [] {
      assert cur + s == cur;
    } else {
      if IsWhitespace(s[0]) {
        SliceHasNoComment(cur + s, 0, |cur|);
        assert (cur + s)[..|cur|] == cur;
        SliceHasNoComment(cur + s, |cur| + 1, |cur + s|);
        assert (cur + s)[|cur| + 1..|cur + s|] == [] + s[1..];
        SplitFromHasNoComment(s[1..], []);
      } else {
        assert (cur + [s[0]]) + s[1..] == cur + s;
        SplitFromHasNoComment(s[1..], cur + [s[0]]);
      }
    }
  }

  lemma SplitHasNoComment(s: string)
    requires !HasComment(s)
    ensures forall t | t in SplitWhitespace(s) :: !HasComment(t)
  {
    assert [] + s == s;
    SplitFromHasNoComment(s, []);
  }

  /** Leading whitespace never changes the tokens. */
  lemma {:induction false} SplitSkipsLeading(w: string, s: string)
    requires AllWhitespace(w)
    ensures SplitWhitespace(w + s) == SplitWhitespace(s)
  {
    if w != [] {
      assert (w + s)[0] == w[0] && (w + s)[1..] == w[1..] + s;
      assert SplitFrom(w + s, []) == Flush([]) + SplitFrom(w[1..] + s, []);
      SplitSkipsLeading(w[1..], s);
    } else {
      assert w + s == s;
    }
  }

  /** A whitespace-free run is read as one token. */
  lemma {:induction false} SplitFromRun(t: string, cur: string)
    requires NoWhitespace(t)
    ensures SplitFrom(t, cur) == Flush(cur + t)
  {
    if t == [] {
      assert cur + t == cur;
    } else {
      assert (cur + [t[0]]) + t[1..] == cur + t;
      SplitFromRun(t[1..], cur + [t[0]]);
    }
  }

  /** A token on its own splits into itself. */
  lemma SplitToken(t: string)
    requires IsToken(t)
    ensures SplitWhitespace(t) == [t]
  {
    SplitFromRun(t, []);
    assert [] + t == t;
  }

  /** Reading a + b continues from a into b; whitespace at the seam (or nothing on
      one side) makes the tokens of b independent of a. */
  lemma {:induction false} SplitFromAppend(a: string, b: string, cur: string)
    requires b == [] || IsWhitespace(b[0]) || (a != [] && IsWhitespace(a[|a| - 1])) || (a == [] && cur == [])
    ensures SplitFrom(a + b, cur) == SplitFrom(a, cur) + SplitWhitespace(b)
  {
    if a == [] {
      assert a + b == b;
      if b != [] && cur != [] {
        assert SplitFrom(b, cur) == Flush(cur) + SplitFrom(b[1..], []);
      }
    } else {
      assert (a + b)[1..] == a[1..] + b;
      if IsWhitespace(a[0]) {
        SplitFromAppend(a[1..], b, []);
      } else {
        SplitFromAppend(a[1..], b, cur + [a[0]]);
      }
    }
  }

  /** Two strings separated by whitespace (or with one of them empty) split into the
      tokens of the first followed by those of the second. */
  lemma SplitAppend(a: string, b: string)
    requires a == [] || b == [] || IsWhitespace(a[|a| - 1]) || IsWhitespace(b[0])
    ensures SplitWhitespace(a + b) == SplitWhitespace(a) + SplitWhitespace(b)
  {
    SplitFromAppend(a, b, []);
  }

  lemma SplitTrimStart(s: string)
    ensures SplitWhitespace(TrimStart(s)) == SplitWhitespace(s)
  {
  }

  lemma SplitTrimEnd(s: string)
    ensures SplitWhitespace(TrimEnd(s)) == SplitWhitespace(s)
  {
    var r := TrimEnd(s);
    assert s == r + s[|r|..];
    SplitAppend(r, s[|r|..]);
  }

  /** Trimming before splitting changes nothing: `s.trim().split_whitespace()` yields
      the same tokens as `s.split_whitespace()`. */
  lemma SplitTrim(s: string)
    ensures SplitWhitespace(Trim(s)) == SplitWhitespace(s)
  {
    SplitTrimStart(s);
    SplitTrimEnd(TrimStart(s));
  }

  /** The tokens separated by single spaces. */
  ghost function Join(ts: seq<string>): string {
    if ts == [] then ""
    else if |ts| == 1 then ts[0]
    else ts[0] + " " + Join(ts[1..])
  }

  /** Round trip: splitting the space-joined tokens gives the tokens back. */
  lemma {:induction false} SplitJoin(ts: seq<string>)
    requires forall t | t in ts :: IsToken(t)
    ensures SplitWhitespace(Join(ts)) == ts
  {
    if |ts| == 1 {
      SplitToken(ts[0]);
    } else if |ts| > 1 {
      var rest := Join(ts[1..]);
      assert ts[0] + " " + rest == ts[0] + (" " + rest);
      SplitAppend(ts[0], " " + rest);
      SplitToken(ts[0]);
      SplitSkipsLeading(" ", rest);
      SplitJoin(ts[1..]);
    }
  }

  /** The characters of s that are not whitespace, in order. */
  ghost function Squeeze(s: string): string {
    if s == [] then ""
    else (if IsWhitespace(s[0]) then "" else [s[0]]) + Squeeze(s[1..])
  }

  ghost function Concat(ts: seq<string>): string {
    if ts == [] then "" else ts[0] + Concat(ts[1..])
  }

  /** No character is lost or invented: the tokens, put back together, are exactly the
      non-whitespace characters of s, in their original order. */
  lemma {:induction false} SplitFromKeepsContent(s: string, cur: string)
    ensures Concat(SplitFrom(s, cur)) == cur + Squeeze(s)
  {
    if s == [] {
      assert Concat(Flush(cur)) == cur;
    } else if IsWhitespace(s[0]) {
      SplitFromKeepsContent(s[1..], []);
      ConcatAppend(Flush(cur), SplitFrom(s[1..], []));
      assert Concat(Flush(cur)) == cur;
    } else {
      SplitFromKeepsContent(s[1..], cur + [s[0]]);
    }
  }

  lemma {:induction false} ConcatAppend(xs: seq<string>, ys: seq<string>)
    ensures Concat(xs + ys) == Concat(xs) + Concat(ys)
  {
    if xs != [] {
      assert (xs + ys)[0] == xs[0] && (xs + ys)[1..] == xs[1..] + ys;
      ConcatAppend(xs[1..], ys);
      assert Concat(xs + ys) == xs[0] + (Concat(xs[1..]) + Concat(ys));
    } else {
      assert xs + ys == ys;
    }
  }

  lemma SplitKeepsContent(s: string)
    ensures Concat(SplitWhitespace(s)) == Squeeze(s)
  {
    SplitFromKeepsContent(s, []);
  }
}
