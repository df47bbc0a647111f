/**
 * Splitting a path or a path pattern on '/', as `str::split('/')` followed by
 * `filter(|s| !s.is_empty())` does in `uri_matches_path` and `extract_params`.
 */
module Paths {

  /** True when `s` contains no '/' character. */
  predicate NoSlash(s: string) {
    forall i :: 0 <= i < |s| ==> s[i] != '/'
  }

  /**
   * The pieces of `s` between the '/' separators, empty pieces included,
   * exactly as `str::split('/')` yields them: "" gives [""], "/a/" gives ["", "a", ""].
   */
  function Split(s: string): (pieces: seq<string>)
    ensures |pieces| >= 1
    ensures forall i :: 0 <= i < |pieces| ==> NoSlash(pieces[i])
  {
    if s == [] then [""]
    else
      var rest := Split(s[1..]);
      if s[0] == '/' then [""] + rest
      else [[s[0]] + rest[0]] + rest[1..]
  }

  /** The pieces put back together with a '/' between each two of them. */
  function Join(pieces: seq<string>): string
    requires |pieces| >= 1
  {
    if |pieces| == 1 then pieces[0] else pieces[0] + "/" + Join(pieces[1..])
  }

  /** Splitting loses nothing: joining the pieces gives back the input. */
  lemma {:induction false} JoinSplit(s: string)
    ensures Join(Split(s)) == s
  {
    if s != [] {
      JoinSplit(s[1..]);
      var rest := Split(s[1..]);
      if s[0] == '/' {
        assert Split(s) == [""] + rest;
        assert (["" ] + rest)[1..] == rest;
        assert s == "" + "/" + Join(rest);
      } else {
        var pieces := Split(s);
        assert pieces == [[s[0]] + rest[0]] + rest[1..];
        if |rest| == 1 {
          assert s == [s[0]] + rest[0];
        } else {
          assert pieces[1..] == rest[1..];
          assert Join(rest) == rest[0] + "/" + Join(rest[1..]);
          assert s == [s[0]] + rest[0] + "/" + Join(rest[1..]);
        }
      }
    }
  }

  /** Split inverts Join on pieces that hold no separator. */
  lemma {:induction false} SplitJoin(pieces: seq<string>)
    requires |pieces| >= 1
    requires forall i :: 0 <= i < |pieces| ==> NoSlash(pieces[i])
    ensures Split(Join(pieces)) == pieces
  {
    if |pieces| == 1 {
      SplitNoSlash(pieces[0]);
    } else {
      SplitJoin(pieces[1..]);
      SplitPrefix(pieces[0], Join(pieces[1..]));
      assert [pieces[0]] + pieces[1..] == pieces;
    }
  }

  /** A piece without a separator splits into itself. */
  lemma {:induction false} SplitNoSlash(p: string)
    requires NoSlash(p)
    ensures Split(p) == [p]
  {
    if p != [] {
      SplitNoSlash(p[1..]);
      assert [p[0]] + p[1..] == p;
    }
  }

  /** Splitting `p + "/" + t`, where `p` holds no separator, puts `p` in front of the pieces of `t`. */
  lemma {:induction false} SplitPrefix(p: string, t: string)
    requires NoSlash(p)
    ensures Split(p + "/" + t) == [p] + Split(t)
  {
    if p == [] {
      assert p + "/" + t == "/" + t;
      assert ("/" + t)[1..] == t;
    } else {
      assert (p + "/" + t)[1..] == p[1..] + "/" + t;
      SplitPrefix(p[1..], t);
      assert [p[0]] + p[1..] == p;
    }
  }

  /** The pieces of `pieces` that are not empty. */
  function NonEmpty(pieces: seq<string>): (kept: seq<string>)
    ensures |kept| <= |pieces|
    ensures forall i :: 0 <= i < |kept| ==> kept[i] != "" && kept[i] in pieces
  {
    if pieces == [] then []
    else if pieces[0] == "" then NonEmpty(pieces[1..])
    else [pieces[0]] + NonEmpty(pieces[1..])
  }

  /**
   * The segments of a path or pattern: `s.split('/').filter(|s| !s.is_empty())`.
   * Every segment is non-empty and holds no '/'.
   */
  function Segments(s: string): (segs: seq<string>)
    ensures forall i :: 0 <= i < |segs| ==> segs[i] != "" && NoSlash(segs[i])
  {
    NonEmpty(Split(s))
  }

  /** Segments that are already non-empty and free of '/' survive a leading-slash join unchanged. */
  lemma {:induction false} SegmentsOfPath(segs: seq<string>)
    requires forall i :: 0 <= i < |segs| ==> segs[i] != "" && NoSlash(segs[i])
    ensures Segments("/" + (if segs == [] then "" else Join(segs))) == segs
  {
    if segs == [] {
      assert "/" + "" == "/";
      assert Split("") == [""];
      assert Split("/") == ["", ""];
      assert NonEmpty(["", ""]) == NonEmpty([""]) == NonEmpty([]);
    } else {
      SplitJoin(segs);
      SplitPrefix("", Join(segs));
      assert "" + "/" + Join(segs) == "/" + Join(segs);
      NonEmptyKeepsAll(segs);
    }
  }

  lemma {:induction false} NonEmptyKeepsAll(segs: seq<string>)
    requires forall i :: 0 <= i < |segs| ==> segs[i] != ""
    ensures NonEmpty(segs) == segs
    ensures NonEmpty([""] + segs) == segs
  {
    assert ([""] + segs)[1..] == segs;
    if segs != [] {
      NonEmptyKeepsAll(segs[1..]);
      assert [segs[0]] + segs[1..] == segs;
    }
  }

  /** Splitting around one '/' splits each side on its own. */
  lemma {:induction false} SplitConcat(a: string, b: string)
    ensures Split(a + "/" + b) == Split(a) + Split(b)
  {
    if a == [] {
      assert a + "/" + b == "/" + b;
      assert ("/" + b)[1..] == b;
    } else {
      assert (a + "/" + b)[1..] == a[1..] + "/" + b;
      SplitConcat(a[1..], b);
      var rest := Split(a[1..]);
      if a[0] != '/' {
        assert (rest + Split(b))[0] == rest[0];
        assert (rest + Split(b))[1..] == rest[1..] + Split(b);
      }
    }
  }

  /** Filtering distributes over concatenation and keeps the order of the pieces. */
  lemma {:induction false} NonEmptyConcat(x: seq<string>, y: seq<string>)
    ensures NonEmpty(x + y) == NonEmpty(x) + NonEmpty(y)
  {
    if x == [] {
      assert x + y == y;
    } else {
      assert (x + y)[1..] == x[1..] + y;
      NonEmptyConcat(x[1..], y);
    }
  }

  /**
   * The segments of a path with a '/' between two parts are those of the
   * parts, one after the other.
   */
  lemma SegmentsConcat(a: string, b: string)
    ensures Segments(a + "/" + b) == Segments(a) + Segments(b)
  {
    SplitConcat(a, b);
    NonEmptyConcat(Split(a), Split(b));
  }

  /** Doubled and trailing slashes are normalised away. */
  lemma SlashesNormalised(a: string, b: string)
    ensures Segments(a + "//" + b) == Segments(a + "/" + b)
    ensures Segments(a + "/") == Segments(a)
  {
    SegmentsConcat(a, "/" + b);
    assert a + "/" + ("/" + b) == a + "//" + b;
    SegmentsConcat("", b);
    assert "" + "/" + b == "/" + b;
    assert Segments("") == [] by {
      assert Split("") == [""];
    }
    SegmentsConcat(a, b);
    SegmentsConcat(a, "");
    assert a + "/" + "" == a + "/";
  }
}
