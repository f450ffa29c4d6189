/** String operations the renderer relies on: Array.prototype.join, the global
    literal replace used for template placeholders, and the splitting that
    characterises both. */
module Text {

  /** `parts.join(sep)`: the parts in order, one separator between each
      neighbouring pair and none at the ends; the empty list joins to the
      empty string. */
  function Join(parts: seq<string>, sep: string): (r: string)
  {
    if |parts| == 0 then ""
    else if |parts| == 1 then parts[0]
    else parts[0] + sep + Join(parts[1..], sep)
  }

  /** Concatenation of a list of strings in order. */
  function Concat(parts: seq<string>): string
  {
    if parts == [] then "" else parts[0] + Concat(parts[1..])
  }

  predicate StartsWith(s: string, p: string)
  {
    |p| <= |s| && s[..|p|] == p
  }

  predicate OccursAt(s: string, p: string, i: nat)
  {
    i + |p| <= |s| && s[i..i + |p|] == p
  }

  /** `s` holds no occurrence of `p`. */
  ghost predicate Free(s: string, p: string)
  {
    forall i: nat :: !OccursAt(s, p, i)
  }

  /** No proper suffix of `p` is also a prefix of it, so two occurrences of
      `p` can never overlap. */
  ghost predicate BorderFree(p: string)
  {
    forall k :: 0 < k < |p| ==> p[k..] != p[..|p| - k]
  }

  /** `s.replace(/p/g, r)` for a literal pattern: occurrences are found left
      to right and replaced without overlapping, and the replacement text is
      never searched again. */
  function ReplaceAll(s: string, p: string, r: string): (out: string)
    requires p != ""
    decreases |s|
  {
    if s == "" then ""
    else if StartsWith(s, p) then
      r + ReplaceAll(s[|p|..], p, r)
    else
      [s[0]] + ReplaceAll(s[1..], p, r)
  }

  /** Where `p` does not start, the scan keeps the first character and
      moves on by one. */
  lemma ReplaceAllSkipsAt(s: string, p: string, r: string)
    requires p != "" && s != "" && !StartsWith(s, p)
    ensures ReplaceAll(s, p, r) == [s[0]] + ReplaceAll(s[1..], p, r)
  {
  }

  /** In particular where the text starts with another character than `p`. */
  lemma ReplaceAllSkips(s: string, p: string, r: string)
    requires p != "" && s != "" && s[0] != p[0]
    ensures ReplaceAll(s, p, r) == [s[0]] + ReplaceAll(s[1..], p, r)
  {
    if |p| <= |s| {
      assert s[..|p|][0] == s[0];
    }
    ReplaceAllSkipsAt(s, p, r);
  }

  /** The pieces of `s` between the occurrences of `p` that ReplaceAll finds. */
  function Split(s: string, p: string): (ps: seq<string>)
    requires p != ""
    ensures |ps| >= 1
    decreases |s|
  {
    if s == "" then [""]
    else if StartsWith(s, p) then [""] + Split(s[|p|..], p)
    else
      var rest := Split(s[1..], p);
      [[s[0]] + rest[0]] + rest[1..]
  }

  /** Split undoes a join with `p`, and no piece holds `p`. */
  lemma {:induction false} SplitPieces(s: string, p: string)
    requires p != ""
    ensures Join(Split(s, p), p) == s
    ensures forall i :: 0 <= i < |Split(s, p)| ==> Free(Split(s, p)[i], p)
    decreases |s|
  {
    if s != "" {
      if StartsWith(s, p) {
        SplitPieces(s[|p|..], p);
        SplitPiecesAtOccurrence(s, p);
      } else {
        SplitPieces(s[1..], p);
        SplitPiecesPastCharacter(s, p);
      }
    }
  }

  /** The step of SplitPieces at an occurrence of `p`. */
  lemma SplitPiecesAtOccurrence(s: string, p: string)
    requires p != "" && StartsWith(s, p)
    requires Join(Split(s[|p|..], p), p) == s[|p|..]
    requires forall i :: 0 <= i < |Split(s[|p|..], p)| ==> Free(Split(s[|p|..], p)[i], p)
    ensures Join(Split(s, p), p) == s
    ensures forall i :: 0 <= i < |Split(s, p)| ==> Free(Split(s, p)[i], p)
  {
    var ps, rest := Split(s, p), Split(s[|p|..], p);
    SplitAtOccurrence(s, p);
    JoinCons("", rest, p);
    PrefixAndRest(s, |p|);
    assert forall i :: 1 <= i < |ps| ==> ps[i] == rest[i - 1];
    assert Free(ps[0], p);
  }

  /** The step of SplitPieces past a character where `p` does not start. */
  lemma SplitPiecesPastCharacter(s: string, p: string)
    requires p != "" && s != "" && !StartsWith(s, p)
    requires Join(Split(s[1..], p), p) == s[1..]
    requires forall i :: 0 <= i < |Split(s[1..], p)| ==> Free(Split(s[1..], p)[i], p)
    ensures Join(Split(s, p), p) == s
    ensures forall i :: 0 <= i < |Split(s, p)| ==> Free(Split(s, p)[i], p)
  {
    var ps, rest := Split(s, p), Split(s[1..], p);
    SplitPastCharacter(s, p);
    JoinHeadExtend([s[0]], rest, p);
    JoinStartsWithHead(rest, p);
    FreeExtend(s[0], rest[0], p, s);
    assert [s[0]] + s[1..] == s;
    assert forall i :: 1 <= i < |ps| ==> ps[i] == rest[i];
  }

  lemma {:induction false} JoinStartsWithHead(ps: seq<string>, sep: string)
    requires |ps| >= 1
    ensures StartsWith(Join(ps, sep), ps[0])
    decreases |ps|
  {
    if |ps| > 1 {
      var j := Join(ps, sep);
      assert j == ps[0] + (sep + Join(ps[1..], sep));
      assert j[..|ps[0]|] == ps[0];
    }
  }

  lemma JoinCons(x: string, xs: seq<string>, sep: string)
    requires |xs| >= 1
    ensures Join([x] + xs, sep) == x + sep + Join(xs, sep)
  {
  }

  lemma JoinHeadExtend(c: string, ps: seq<string>, sep: string)
    requires |ps| >= 1
    ensures Join([c + ps[0]] + ps[1..], sep) == c + Join(ps, sep)
  {
  }

  /** A piece that extends a `p`-free piece by one character and does not
      start with `p` is still `p`-free. */
  lemma FreeExtend(c: char, w: string, p: string, s: string)
    requires p != "" && Free(w, p)
    requires |s| >= 1 && s[0] == c && StartsWith(s[1..], w)
    requires !StartsWith(s, p)
    ensures Free([c] + w, p)
  {
    var x := [c] + w;
    forall i: nat
      ensures !OccursAt(x, p, i)
    {
      if i == 0 {
        if |p| <= |x| {
          assert x == s[..|x|];
          assert x[..|p|] == s[..|p|];
        }
      } else if i + |p| <= |x| {
        assert x[i..i + |p|] == w[i - 1..i - 1 + |p|];
        assert !OccursAt(w, p, i - 1);
      }
    }
  }

  /** Replace-all puts `r` into every gap between the pieces Split finds:
      every occurrence is replaced, and the text between them is untouched. */
  lemma {:induction false} ReplaceAllIsJoinOfSplit(s: string, p: string, r: string)
    requires p != ""
    ensures ReplaceAll(s, p, r) == Join(Split(s, p), r)
    decreases |s|
  {
    if s == "" {
    } else if StartsWith(s, p) {
      ReplaceAllIsJoinOfSplit(s[|p|..], p, r);
      SplitAtOccurrence(s, p);
      JoinCons("", Split(s[|p|..], p), r);
    } else {
      ReplaceAllIsJoinOfSplit(s[1..], p, r);
      SplitPastCharacter(s, p);
      ReplaceAllSkipsAt(s, p, r);
      JoinHeadExtend([s[0]], Split(s[1..], p), r);
    }
  }

  lemma FreeTail(w: string, p: string)
    requires w != "" && Free(w, p)
    ensures Free(w[1..], p)
  {
    forall i: nat ensures !OccursAt(w[1..], p, i) {
      if i + |p| <= |w| - 1 {
        assert w[1..][i..i + |p|] == w[i + 1..i + 1 + |p|];
        assert !OccursAt(w, p, i + 1);
      }
    }
  }

  lemma {:induction false} SplitOfFree(w: string, p: string)
    requires p != "" && Free(w, p)
    ensures Split(w, p) == [w]
    decreases |w|
  {
    if w != "" {
      assert !OccursAt(w, p, 0);
      FreeTail(w, p);
      SplitOfFree(w[1..], p);
      assert [w[0]] + w[1..] == w;
    }
  }

  /** A text without an occurrence of the pattern is left as it is. */
  lemma ReplaceAllOfFree(s: string, p: string, r: string)
    requires p != "" && Free(s, p)
    ensures ReplaceAll(s, p, r) == s
  {
    ReplaceAllIsJoinOfSplit(s, p, r);
    SplitOfFree(s, p);
  }

  /** A nonempty `p`-free piece followed by a border-free `p` does not start
      with `p`: the scan cannot find an occurrence before the separator. */
  lemma NoEarlyOccurrence(w: string, p: string, t: string)
    requires p != "" && w != "" && Free(w, p) && BorderFree(p)
    ensures !StartsWith(w + p + t, p)
  {
    var s := w + p + t;
    if |p| <= |w| {
      assert s[..|p|] == w[..|p|];
      assert !OccursAt(w, p, 0);
    } else {
      var k := |w|;
      assert s[..|p|][k..] == p[..|p| - k];
      assert p[k..] != p[..|p| - k];
    }
  }

  lemma {:induction false} SplitAtSeparator(w: string, p: string, t: string)
    requires p != "" && Free(w, p) && BorderFree(p)
    ensures Split(w + p + t, p) == [w] + Split(t, p)
    decreases |w|
  {
    var s := w + p + t;
    if w == "" {
      assert s == p + t;
      SplitAtOccurrence(s, p);
      assert s[|p|..] == t;
    } else {
      NoEarlyOccurrence(w, p, t);
      FreeTail(w, p);
      SplitAtSeparator(w[1..], p, t);
      SplitPastFirst(w, p, t);
    }
  }

  /** The step of SplitAtSeparator past the first character of `w`. */
  lemma SplitPastFirst(w: string, p: string, t: string)
    requires w != "" && p != "" && !StartsWith(w + p + t, p)
    requires Split(w[1..] + p + t, p) == [w[1..]] + Split(t, p)
    ensures Split(w + p + t, p) == [w] + Split(t, p)
  {
    var s := w + p + t;
    SplitPastCharacter(s, p);
    DropFirst(w, p + t);
    assert s[1..] == w[1..] + p + t;
    var rest := Split(s[1..], p);
    assert rest[0] == w[1..] && rest[1..] == Split(t, p);
    assert [s[0]] + rest[0] == w;
  }

  lemma PrefixAndRest(s: string, n: nat)
    requires n <= |s|
    ensures s == s[..n] + s[n..]
  {
  }

  lemma DropFirst(w: string, z: string)
    requires w != ""
    ensures (w + z)[1..] == w[1..] + z
    ensures [w[0]] + w[1..] == w
  {
  }

  /** An occurrence at the front ends an empty first piece. */
  lemma SplitAtOccurrence(s: string, p: string)
    requires p != "" && StartsWith(s, p)
    ensures Split(s, p) == [""] + Split(s[|p|..], p)
  {
  }

  /** A character where `p` does not start belongs to the first piece. */
  lemma SplitPastCharacter(s: string, p: string)
    requires p != "" && s != "" && !StartsWith(s, p)
    ensures Split(s, p) == [[s[0]] + Split(s[1..], p)[0]] + Split(s[1..], p)[1..]
  {
  }

  /** Splitting a text built from `p`-free pieces joined by a border-free `p`
      gives the pieces back. */
  lemma {:induction false} SplitOfJoin(ps: seq<string>, p: string)
    requires p != "" && BorderFree(p) && |ps| >= 1
    requires forall i :: 0 <= i < |ps| ==> Free(ps[i], p)
    ensures Split(Join(ps, p), p) == ps
    decreases |ps|
  {
    if |ps| == 1 {
      SplitOfFree(ps[0], p);
    } else {
      SplitOfJoin(ps[1..], p);
      SplitAtSeparator(ps[0], p, Join(ps[1..], p));
      assert [ps[0]] + ps[1..] == ps;
    }
  }

  /** Replacing every occurrence of a border-free placeholder in a text made
      of placeholder-free pieces puts the replacement in each placeholder's
      place and nowhere else. */
  lemma ReplaceAllOfJoin(ps: seq<string>, p: string, r: string)
    requires p != "" && BorderFree(p) && |ps| >= 1
    requires forall i :: 0 <= i < |ps| ==> Free(ps[i], p)
    ensures ReplaceAll(Join(ps, p), p, r) == Join(ps, r)
  {
    ReplaceAllIsJoinOfSplit(Join(ps, p), p, r);
    SplitOfJoin(ps, p);
  }

  /** A pattern whose first character appears nowhere else in it is border-free. */
  lemma UniqueHeadBorderFree(p: string)
    requires |p| >= 1
    requires forall i :: 1 <= i < |p| ==> p[i] != p[0]
    ensures BorderFree(p)
  {
    forall k | 0 < k < |p| ensures p[k..] != p[..|p| - k] {
      assert p[k..][0] == p[k] != p[0] == p[..|p| - k][0];
    }
  }
}
