/** The directory layout of `makeHashEncodedPath`: a source string is stored
    under its hash, nested one directory per leading hash character.  The
    SHA-1 hex digest is a function parameter here. */
module HashEncodedPaths {
  datatype HashEncodedPath = HashEncodedPath(
    source: string,
    hashedSource: string,
    depth: int,
    leadingSegments: seq<string>)

  /** The end index of JavaScript's `s.slice(0, depth)`: a negative depth
      counts back from the end, and the index is clamped to the string. */
  function SliceEnd(len: nat, depth: int): (r: nat)
    ensures r <= len
    ensures depth >= 0 ==> r == if depth < len then depth else len
    ensures depth < 0 ==> r == if len + depth > 0 then len + depth else 0
  {
    if depth >= 0 then (if depth < len then depth else len)
    else if len + depth > 0 then len + depth else 0
  }

  /** `makeHashEncodedPath(source, depth)` with `hash` standing for
      `shaEncodeAsHex`. */
  function MakeHashEncodedPath(hash: string -> string, source: string, depth: int): (r: HashEncodedPath)
    ensures r.source == source && r.depth == depth && r.hashedSource == hash(source)
    ensures |r.leadingSegments| == SliceEnd(|hash(source)|, depth)
    ensures forall i :: 0 <= i < |r.leadingSegments| ==> r.leadingSegments[i] == [hash(source)[i]]
  {
    var h := hash(source);
    var n := SliceEnd(|h|, depth);
    HashEncodedPath(source, h, depth, seq(n, i requires 0 <= i < n => [h[i]]))
  }

  /** `Array.prototype.join('/')`. */
  function JoinSlash(segs: seq<string>): (r: string)
    ensures segs == [] ==> r == []
    ensures |segs| == 1 ==> r == segs[0]
    decreases |segs|
  {
    if segs == [] then []
    else if |segs| == 1 then segs[0]
    else segs[0] + "/" + JoinSlash(segs[1..])
  }

  /** `toPath()`: the joined segments as directories, then the hash with the
      `.d` suffix; with no segments, the file name alone. */
  function ToPath(p: HashEncodedPath): (r: string)
    ensures |r| >= |p.hashedSource| + 2
    ensures r[|r| - (|p.hashedSource| + 2)..] == p.hashedSource + ".d"
    ensures var dir := JoinSlash(p.leadingSegments);
      r[..|r| - (|p.hashedSource| + 2)] == if dir == [] then [] else dir + "/"
  {
    var dir := JoinSlash(p.leadingSegments);
    var leaf := p.hashedSource + ".d";
    if dir == [] then leaf else dir + "/" + leaf
  }

  /** Single-character segments joined by '/' put the characters at the even
      positions and the separators at the odd ones. */
  lemma {:induction false} JoinSingles(segs: seq<string>)
    requires segs != []
    requires forall i :: 0 <= i < |segs| ==> |segs[i]| == 1
    ensures |JoinSlash(segs)| == 2 * |segs| - 1
    ensures forall i :: 0 <= i < |segs| ==> JoinSlash(segs)[2 * i] == segs[i][0]
    ensures forall i :: 0 <= i < |segs| - 1 ==> JoinSlash(segs)[2 * i + 1] == '/'
    decreases |segs|
  {
    if |segs| > 1 {
      var tail := segs[1..];
      JoinSingles(tail);
      var j := JoinSlash(segs);
      assert j == segs[0] + "/" + JoinSlash(tail);
      forall i | 1 <= i < |segs| ensures j[2 * i] == segs[i][0] {
        assert j[2 * i] == JoinSlash(tail)[2 * (i - 1)];
      }
      forall i | 1 <= i < |segs| - 1 ensures j[2 * i + 1] == '/' {
        assert j[2 * i + 1] == JoinSlash(tail)[2 * (i - 1) + 1];
      }
    }
  }

  /** The path of a made record: the first `m` hash characters each followed
      by '/', then the whole hash and `.d`, where `m` is the number of
      leading segments (`min(depth, |hash|)` for a non-negative depth). */
  lemma PathLayout(hash: string -> string, source: string, depth: int)
    ensures var p := MakeHashEncodedPath(hash, source, depth);
      var h := hash(source);
      var m := |p.leadingSegments|;
      var path := ToPath(p);
      |path| == 2 * m + |h| + 2
      && (forall i :: 0 <= i < m ==> path[2 * i] == h[i] && path[2 * i + 1] == '/')
      && path[2 * m..] == h + ".d"
  {
    var p := MakeHashEncodedPath(hash, source, depth);
    var h := hash(source);
    var m := |p.leadingSegments|;
    var leaf := h + ".d";
    if m > 0 {
      JoinSingles(p.leadingSegments);
      var dir := JoinSlash(p.leadingSegments);
      assert dir != [];
      var path := dir + "/" + leaf;
      assert ToPath(p) == path;
      forall i | 0 <= i < m ensures path[2 * i] == h[i] && path[2 * i + 1] == '/' {
        assert path[2 * i] == dir[2 * i];
        if i < m - 1 {
          assert path[2 * i + 1] == dir[2 * i + 1];
        }
      }
      assert path[2 * m..] == leaf;
    }
  }

  /** Depth 0 stores the file at the top: just the hash and `.d`. */
  lemma DepthZeroPath(hash: string -> string, source: string)
    ensures ToPath(MakeHashEncodedPath(hash, source, 0)) == hash(source) + ".d"
  {
    PathLayout(hash, source, 0);
  }

  /** With hashes of equal length, equal paths at the same depth mean equal
      hashes: the layout adds no collisions of its own. */
  lemma PathsSeparateHashes(hash: string -> string, s1: string, s2: string, depth: int)
    requires |hash(s1)| == |hash(s2)|
    requires ToPath(MakeHashEncodedPath(hash, s1, depth)) == ToPath(MakeHashEncodedPath(hash, s2, depth))
    ensures hash(s1) == hash(s2)
  {
    PathLayout(hash, s1, depth);
    PathLayout(hash, s2, depth);
    var m := SliceEnd(|hash(s1)|, depth);
    var path := ToPath(MakeHashEncodedPath(hash, s1, depth));
    assert hash(s1) == path[2 * m..][..|hash(s1)|];
    assert hash(s2) == path[2 * m..][..|hash(s2)|];
  }
}
