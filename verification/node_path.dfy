/** Node's POSIX `path.extname`, which both upload filters and the stored-name
    builder apply to the client's original file name. The extension is taken
    from the last path segment once trailing slashes are dropped: it runs from
    the segment's last dot to its end, and it is empty when the segment has no
    dot, when its only dot is its first character, or when the segment is
    exactly `..`. */
module NodePath {
  import opened Text

  /** No occurrence of `c` follows its last index. */
  lemma NothingAfterLastIndex(s: string, c: char)
    ensures c !in s[LastIndex(s, c) + 1..]
  {
    NothingAfter(s, c, LastIndex(s, c));
  }

  /** A position after which `c` does not occur leaves a suffix free of `c`. */
  lemma NothingAfter(s: string, c: char, k: int)
    requires -1 <= k < |s|
    requires forall j :: k < j < |s| ==> s[j] != c
    ensures c !in s[k + 1..]
  {
    var t := s[k + 1..];
    forall j | 0 <= j < |t|
      ensures t[j] != c
    {
      assert t[j] == s[k + 1 + j];
    }
  }

  /** `p` without its trailing run of slashes. */
  function TrimTrailingSlashes(p: string): (r: string)
    ensures r == [] || r[|r| - 1] != '/'
    ensures forall i :: |r| <= i < |p| ==> p[i] == '/'
  {
    p[..TrimmedLength(p, |p|)]
  }

  /** The length of the first `n` characters of `p` without their trailing
      run of slashes. */
  function TrimmedLength(p: string, n: nat): (m: nat)
    requires n <= |p|
    ensures m <= n
    ensures m == 0 || p[m - 1] != '/'
    ensures forall i :: m <= i < n ==> p[i] == '/'
  {
    if n > 0 && p[n - 1] == '/' then TrimmedLength(p, n - 1) else n
  }

  /** The part of `p` after its last slash. */
  function LastSegment(p: string): (seg: string)
    ensures '/' !in seg
  {
    NothingAfterLastIndex(p, '/');
    p[LastIndex(p, '/') + 1..]
  }

  /** The extension of one slash-free segment. */
  function SegmentExtname(seg: string): (ext: string)
    ensures ext == "" || (ext[0] == '.' && '.' !in ext[1..])
  {
    var dot := LastIndex(seg, '.');
    if dot <= 0 || seg == ".." then ""
    else
      NothingAfterLastIndex(seg, '.');
      assert seg[dot..][1..] == seg[dot + 1..];
      seg[dot..]
  }

  /** Every character of a segment's extension comes from the segment. */
  lemma SegmentExtnameChars(seg: string)
    ensures forall c :: c in SegmentExtname(seg) ==> c in seg
  {
    var dot := LastIndex(seg, '.');
    if 0 < dot && seg != ".." {
      var ext := seg[dot..];
      assert forall j :: 0 <= j < |ext| ==> ext[j] == seg[dot + j];
    }
  }

  /** `path.extname(p)` on POSIX. */
  function Extname(p: string): (ext: string)
    ensures ext == "" || (ext[0] == '.' && '.' !in ext[1..])
    ensures '/' !in ext
  {
    var seg := LastSegment(TrimTrailingSlashes(p));
    SegmentExtnameChars(seg);
    SegmentExtname(seg)
  }

  /** A slash-free name that has no extension: no dot at all, a single dot
      that opens the name (`.env`), or the name `..`. */
  predicate HasNoExtension(name: string)
  {
    || '.' !in name
    || (name[0] == '.' && '.' !in name[1..])
    || name == ".."
  }

  /** For a name without slashes, `extname` is empty exactly when the name has
      no extension; otherwise it is a proper suffix of the name that starts
      at the name's last dot, leaving a non-empty stem in front. */
  lemma ExtnameOfPlainName(name: string)
    requires '/' !in name
    ensures Extname(name) == "" <==> HasNoExtension(name)
    ensures var ext := Extname(name);
      ext != "" ==> |ext| < |name| && name == name[..|name| - |ext|] + ext
  {
    assert TrimTrailingSlashes(name) == name;
    assert LastSegment(name) == name;
    var dot := LastIndex(name, '.');
    if dot > 0 && name != ".." {
      assert name[1..][dot - 1] == '.';
      assert name[..dot] + name[dot..] == name;
    } else if dot == 0 {
      assert forall j :: 0 <= j < |name[1..]| ==> name[1..][j] == name[j + 1];
    }
  }

  /** A slash-free name whose last dot sits after its first character has
      the suffix from that dot on as its extension (`a.` gives `.`), the
      name `..` excepted. */
  lemma ExtnameAtLastDot(name: string, dot: nat)
    requires '/' !in name
    requires 0 < dot < |name| && name[dot] == '.'
    requires '.' !in name[dot + 1..]
    requires name != ".."
    ensures Extname(name) == name[dot..]
  {
    assert TrimTrailingSlashes(name) == name;
    assert LastSegment(name) == name;
  }

  /** Lower-casing commutes with the extension: it never moves a slash or a
      dot, and `..` has no upper-case letter. */
  lemma ExtnameLower(p: string)
    ensures Extname(Lower(p)) == Lower(Extname(p))
  {
    var t := TrimTrailingSlashes(p);
    TrimLower(p);
    LastSegmentLower(t);
    SegmentExtnameLower(LastSegment(t));
  }

  lemma LastSegmentLower(t: string)
    ensures LastSegment(Lower(t)) == Lower(LastSegment(t))
  {
    LastIndexLower(t, '/');
    LowerSlice(t, LastIndex(t, '/') + 1, |t|);
  }

  lemma SegmentExtnameLower(seg: string)
    ensures SegmentExtname(Lower(seg)) == Lower(SegmentExtname(seg))
  {
    LastIndexLower(seg, '.');
    var dot := LastIndex(seg, '.');
    if dot > 0 && seg != ".." {
      LowerSlice(seg, dot, |seg|);
    } else if seg == ".." {
      assert Lower(seg) == "..";
    }
  }

  lemma TrimLower(p: string)
    ensures TrimTrailingSlashes(Lower(p)) == Lower(TrimTrailingSlashes(p))
  {
    TrimmedLengthLower(p, |p|);
    LowerSlice(p, 0, TrimmedLength(p, |p|));
  }

  lemma {:induction false} TrimmedLengthLower(p: string, n: nat)
    requires n <= |p|
    ensures TrimmedLength(Lower(p), n) == TrimmedLength(p, n)
  {
    if n > 0 {
      assert Lower(p)[n - 1] == '/' <==> p[n - 1] == '/';
      TrimmedLengthLower(p, n - 1);
    }
  }
}
