/**
 * `getFilenameFromUrl`: the suggested name of the saved file is the last
 * '/'-separated piece of the URL's pathname, or "downloaded-file" when that
 * piece is empty or the URL does not parse.
 */
module Filename {
  import opened Wrappers

  /** The name used when the URL gives none. */
  const Fallback: string := "downloaded-file"

  /** The piece contains no '/'. */
  predicate NoSeparator(piece: string) {
    '/' !in piece
  }

  /** JavaScript's `s.split('/')`: never empty, and no piece contains the separator. */
  function Split(s: string): (parts: seq<string>)
    ensures |parts| >= 1
    ensures forall i :: 0 <= i < |parts| ==> NoSeparator(parts[i])
  {
    if s == [] then [[]]
    else
      var init := Split(s[..|s| - 1]);
      var c := s[|s| - 1];
      if c == '/' then init + [[]]
      else init[..|init| - 1] + [init[|init| - 1] + [c]]
  }

  /** JavaScript's `parts.join('/')`. */
  function Join(parts: seq<string>): string
    requires |parts| >= 1
  {
    if |parts| == 1 then parts[0]
    else Join(parts[..|parts| - 1]) + "/" + parts[|parts| - 1]
  }

  /** Splitting and joining again gives back the pathname. */
  lemma {:induction false} JoinSplit(s: string)
    ensures Join(Split(s)) == s
  {
    if s != [] {
      var front, c := s[..|s| - 1], s[|s| - 1];
      assert s == front + [c];
      JoinSplit(front);
      SplitSnoc(front, c);
      var init := Split(front);
      if c == '/' {
        assert (init + [[]])[..|init|] == init;
      } else {
        JoinExtendLast(init, c);
      }
    }
  }

  /** Extending the last piece extends the joined string. */
  lemma JoinExtendLast(parts: seq<string>, c: char)
    requires |parts| >= 1
    ensures Join(parts[..|parts| - 1] + [parts[|parts| - 1] + [c]]) == Join(parts) + [c]
  {
    var ext := parts[..|parts| - 1] + [parts[|parts| - 1] + [c]];
    if |parts| > 1 {
      assert ext[..|ext| - 1] == parts[..|parts| - 1];
    }
  }

  /** A string without separators splits into itself alone. */
  lemma {:induction false} SplitPiece(t: string)
    requires NoSeparator(t)
    ensures Split(t) == [t]
  {
    if t != [] {
      assert NoSeparator(t[..|t| - 1]);
      SplitPiece(t[..|t| - 1]);
      assert t[..|t| - 1] + [t[|t| - 1]] == t;
    }
  }

  /** One more character either opens a new piece or extends the last one. */
  lemma SplitSnoc(s: string, c: char)
    ensures var init := Split(s);
      Split(s + [c]) == if c == '/' then init + [[]] else init[..|init| - 1] + [init[|init| - 1] + [c]]
  {
    assert (s + [c])[..|s|] == s;
  }

  /** A separator between two strings separates their pieces. */
  lemma {:induction false} SplitAppend(s: string, t: string)
    ensures Split(s + "/" + t) == Split(s) + Split(t)
    decreases |t|, 1
  {
    if t == [] {
      SplitSnoc(s, '/');
      assert s + "/" + t == s + ['/'];
    } else {
      var u := t[..|t| - 1];
      var c := t[|t| - 1];
      assert s + "/" + t == (s + "/" + u) + [c];
      assert t == u + [c];
      if c == '/' {
        SplitAppendSeparator(s, u);
      } else {
        SplitAppendChar(s, u, c);
      }
    }
  }

  lemma {:induction false} SplitAppendSeparator(s: string, u: string)
    ensures Split((s + "/" + u) + ['/']) == Split(s) + Split(u + ['/'])
    decreases |u| + 1, 0
  {
    SplitAppend(s, u);
    SplitSnoc(s + "/" + u, '/');
    SplitSnoc(u, '/');
  }

  lemma {:induction false} SplitAppendChar(s: string, u: string, c: char)
    requires c != '/'
    ensures Split((s + "/" + u) + [c]) == Split(s) + Split(u + [c])
    decreases |u| + 1, 0
  {
    SplitAppend(s, u);
    SplitSnoc(s + "/" + u, c);
    SplitSnoc(u, c);
    ExtendLast(Split(s), Split(u), c);
  }

  /** Extending the last piece of a concatenation extends the last piece of its second half. */
  lemma ExtendLast(a: seq<string>, b: seq<string>, c: char)
    requires |b| >= 1
    ensures (a + b)[..|a + b| - 1] + [(a + b)[|a + b| - 1] + [c]] == a + (b[..|b| - 1] + [b[|b| - 1] + [c]])
  {
    assert (a + b)[..|a + b| - 1] == a + b[..|b| - 1];
  }

  /** Joining pieces that contain no separator and splitting again gives back the pieces. */
  lemma {:induction false} SplitJoin(parts: seq<string>)
    requires |parts| >= 1
    requires forall i :: 0 <= i < |parts| ==> NoSeparator(parts[i])
    ensures Split(Join(parts)) == parts
  {
    if |parts| == 1 {
      SplitPiece(parts[0]);
    } else {
      var init, last := parts[..|parts| - 1], parts[|parts| - 1];
      assert parts == init + [last];
      assert Join(parts) == Join(init) + "/" + last;
      SplitJoin(init);
      SplitAppend(Join(init), last);
      SplitPiece(last);
    }
  }

  /** `pathname.split('/').pop()`. */
  function LastSegment(pathname: string): (seg: string)
    ensures '/' !in seg
  {
    var parts := Split(pathname);
    assert NoSeparator(parts[|parts| - 1]);
    parts[|parts| - 1]
  }

  /** The last segment is the tail of the pathname after its final '/'. */
  lemma {:induction false} LastSegmentIsTail(pathname: string)
    ensures IsTail(LastSegment(pathname), pathname)
  {
    if pathname != [] {
      var front, c := pathname[..|pathname| - 1], pathname[|pathname| - 1];
      assert pathname == front + [c];
      LastSegmentIsTail(front);
      SplitSnoc(front, c);
      var seg0 := LastSegment(front);
      if c == '/' {
        assert LastSegment(pathname) == [];
      } else {
        assert LastSegment(pathname) == seg0 + [c];
        TailGrows(seg0, front, c);
      }
    }
  }

  /**
   * `seg` is the tail of `p` after its final '/': a suffix, preceded by '/'
   * unless it is all of `p`, and empty exactly when `p` is empty or ends in '/'.
   */
  ghost predicate IsTail(seg: string, p: string) {
    && |seg| <= |p|
    && seg == p[|p| - |seg|..]
    && (|seg| < |p| ==> p[|p| - |seg| - 1] == '/')
    && (seg == [] <==> p == [] || p[|p| - 1] == '/')
  }

  lemma TailGrows(seg: string, p: string, c: char)
    requires IsTail(seg, p) && c != '/'
    ensures IsTail(seg + [c], p + [c])
  {
    var p', seg' := p + [c], seg + [c];
    assert p'[|p'| - |seg'|..] == p[|p| - |seg|..] + [c];
    if |seg'| < |p'| {
      assert p'[|p'| - |seg'| - 1] == p[|p| - |seg| - 1];
    }
  }

  /**
   * `getFilenameFromUrl`, given what `new URL(url).pathname` yields (None
   * when the URL constructor throws).
   */
  function FilenameFromUrl(pathname: Option<string>): (name: string)
    ensures name != [] && '/' !in name
    ensures pathname.None? ==> name == Fallback
  {
    match pathname
    case None => Fallback
    case Some(p) =>
      var seg := LastSegment(p);
      if seg != [] then seg else Fallback
  }

  /**
   * For a pathname that parsed, the file name is the tail after the final
   * '/' when the pathname does not end in '/', and the fallback when it does
   * (or is empty).
   */
  lemma FilenameOfPathname(p: string)
    ensures var name := FilenameFromUrl(Some(p));
      if p == [] || p[|p| - 1] == '/' then name == Fallback
      else
        && |name| <= |p|
        && name == p[|p| - |name|..]
        && (|name| == |p| || p[|p| - |name| - 1] == '/')
  {
    LastSegmentIsTail(p);
    var seg := LastSegment(p);
    assert FilenameFromUrl(Some(p)) == if seg != [] then seg else Fallback;
  }
}
