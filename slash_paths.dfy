/**
 * Slash-separated paths such as `/role1/role2`: the normalisation `pathId` applies before it
 * matches a path against the table, and `split('/')` / `join('/')` between paths and titles.
 */
module SlashPaths {

  predicate NoSlash(s: string) {
    forall i :: 0 <= i < |s| ==> s[i] != '/'
  }

  /**
   * `pathId`'s normalisation: prefix `/` when missing, then `root`, then drop one trailing `/`.
   * The result always starts with `root`; a path with a leading and no trailing slash, such as
   * `/a/b`, gets just the `root` prefix, and one with neither, such as `a/b`, gets `root/`.
   */
  function NormalizePath(path: string): (r: string)
    ensures |r| >= 4 && r[..4] == "root"
    ensures |path| >= 1 && path[0] == '/' && path[|path| - 1] != '/' ==> r == "root" + path
    ensures |path| >= 1 && path[0] != '/' && path[|path| - 1] != '/' ==> r == "root/" + path
  {
    var slashed := if |path| >= 1 && path[0] == '/' then path else "/" + path;
    var rooted := "root" + slashed;
    if rooted[|rooted| - 1] == '/' then rooted[..|rooted| - 1] else rooted
  }

  /** `/` and the empty path both name the root's own path, `root`. */
  lemma NormalizeRoot()
    ensures NormalizePath("/") == "root" && NormalizePath("") == "root"
  {
    assert ("root" + "/")[..4] == "root";
  }

  /** A path without its leading slash is read as if it had one. */
  lemma NormalizeLeadingSlash(p: string)
    requires |p| == 0 || p[0] != '/'
    ensures NormalizePath(p) == NormalizePath("/" + p)
  {
    assert ("/" + p)[0] == '/';
  }

  /** One trailing slash makes no difference. */
  lemma NormalizeTrailingSlash(p: string)
    requires |p| == 0 || p[|p| - 1] != '/'
    ensures NormalizePath(p + "/") == NormalizePath(p)
  {
    var q := p + "/";
    if |p| >= 1 {
      assert q[0] == p[0];
      var slashed := if p[0] == '/' then p else "/" + p;
      var sq := if p[0] == '/' then q else "/" + q;
      assert "root" + sq == ("root" + slashed) + "/";
      assert NormalizePath(q) == "root" + slashed;
    } else {
      assert q == "/";
      assert ("root" + "/")[..4] == "root";
    }
  }

  /** `s.split('/')`: the pieces between slashes, at least one, none containing a slash. */
  function Split(s: string): (parts: seq<string>)
    ensures |parts| >= 1
    ensures forall i :: 0 <= i < |parts| ==> NoSlash(parts[i])
  {
    if s == [] then [""]
    else
      var init, c := Split(s[..|s| - 1]), s[|s| - 1];
      if c == '/' then init + [""]
      else init[..|init| - 1] + [init[|init| - 1] + [c]]
  }

  /** `parts.join('/')`. */
  function Join(parts: seq<string>): string
    requires |parts| >= 1
  {
    if |parts| == 1 then parts[0] else Join(parts[..|parts| - 1]) + "/" + parts[|parts| - 1]
  }

  /** The last piece of `s.split('/')`: what follows the last slash. */
  function LastSegment(s: string): string {
    var parts := Split(s);
    parts[|parts| - 1]
  }

  /** Joining the pieces of a split gives the string back. */
  lemma {:induction false} JoinSplit(s: string)
    ensures Join(Split(s)) == s
  {
    if s != [] {
      var init, c := Split(s[..|s| - 1]), s[|s| - 1];
      JoinSplit(s[..|s| - 1]);
      if c == '/' {
        assert (init + [""])[..|init|] == init;
      } else {
        var parts := init[..|init| - 1] + [init[|init| - 1] + [c]];
        assert parts[..|parts| - 1] == init[..|init| - 1];
        if |init| > 1 {
          assert init[..|init| - 1][..|init| - 2] == init[..|init| - 2];
        }
      }
      assert s == s[..|s| - 1] + [c];
    }
  }

  /** A string without slashes splits into itself. */
  lemma {:induction false} SplitNoSlash(s: string)
    requires NoSlash(s)
    ensures Split(s) == [s]
  {
    if s != [] {
      SplitNoSlash(s[..|s| - 1]);
      assert s == s[..|s| - 1] + [s[|s| - 1]];
    }
  }

  /** The pieces after one more character `c`: a new empty piece after a slash, else `c` joins the last piece. */
  function AppendPiece(p: seq<string>, c: char): seq<string>
    requires |p| >= 1
  {
    if c == '/' then p + [""] else p[..|p| - 1] + [p[|p| - 1] + [c]]
  }

  /** Splitting a string with one more character at the end. */
  lemma SplitSnoc(s: string, c: char)
    ensures Split(s + [c]) == AppendPiece(Split(s), c)
  {
    assert (s + [c])[..|s|] == s;
  }

  /** Adding a character to the pieces of `x + y` only touches the pieces of `y`. */
  lemma AppendPieceConcat(x: seq<string>, y: seq<string>, c: char)
    requires |y| >= 1
    ensures AppendPiece(x + y, c) == x + AppendPiece(y, c)
  {
    var z := x + y;
    if c != '/' {
      assert z[..|z| - 1] == x + y[..|y| - 1];
    }
  }

  /** Splitting `a/b` splits `a` and `b` separately. */
  lemma {:induction false} SplitAtSlash(a: string, b: string)
    ensures Split(a + "/" + b) == Split(a) + Split(b)
  {
    if b == [] {
      assert a + "/" + b == a + ['/'];
      SplitSnoc(a, '/');
    } else {
      var b0, c := b[..|b| - 1], b[|b| - 1];
      var s := a + "/" + b0;
      assert b == b0 + [c];
      assert a + "/" + b == s + [c];
      SplitAtSlash(a, b0);
      SplitSnoc(s, c);
      SplitSnoc(b0, c);
      AppendPieceConcat(Split(a), Split(b0), c);
    }
  }

  /** The last segment of a join is the last piece, when that piece holds no slash. */
  lemma LastSegmentOfJoin(parts: seq<string>)
    requires |parts| >= 1 && NoSlash(parts[|parts| - 1])
    ensures LastSegment(Join(parts)) == parts[|parts| - 1]
  {
    var last := parts[|parts| - 1];
    SplitNoSlash(last);
    if |parts| > 1 {
      SplitAtSlash(Join(parts[..|parts| - 1]), last);
    }
  }
}
