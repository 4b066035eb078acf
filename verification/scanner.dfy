/** Selection of the files to verify: `os.path.splitext` on POSIX paths and
    the extension filter over the paths of the directory walk. */
module Scanner {

  /** Python's `s.rfind(c)`: the last index holding `c`, or -1. */
  function RFind(s: string, c: char): (i: int)
    ensures -1 <= i < |s|
    ensures i >= 0 ==> s[i] == c
    ensures forall j | i < j < |s| :: s[j] != c
  {
    if |s| == 0 then -1
    else if s[|s| - 1] == c then |s| - 1
    else RFind(s[..|s| - 1], c)
  }

  /** The final path component: everything after the last '/'. */
  function Basename(p: string): (b: string)
    ensures '/' !in b
    ensures |b| <= |p| && b == p[|p| - |b|..]
  {
    p[RFind(p, '/') + 1..]
  }

  /** A file name has an extension when it holds a '.' with some other
      character than '.' before it: leading dots do not separate. */
  predicate HasExtension(name: string)
  {
    exists i, j :: 0 <= i < j < |name| && name[i] != '.' && name[j] == '.'
  }

  /** posixpath.splitext: the path is cut before the last '.' of its final
      component, unless that component has no extension, in which case the
      extension is empty.  The two parts concatenate to the path. */
  function SplitExt(p: string): (r: (string, string))
    ensures r.0 + r.1 == p
    ensures r.1 != "" <==> HasExtension(Basename(p))
    ensures r.1 != "" ==> r.1[0] == '.' && '.' !in r.1[1..] && |r.1| <= |Basename(p)|
  {
    var sepIndex := RFind(p, '/');
    var dotIndex := RFind(p, '.');
    var b := Basename(p);
    if dotIndex > sepIndex && exists k :: sepIndex < k < dotIndex && p[k] != '.' then
      var k :| sepIndex < k < dotIndex && p[k] != '.';
      assert b[k - sepIndex - 1] == p[k] && b[dotIndex - sepIndex - 1] == p[dotIndex];
      assert p[dotIndex..][1..] == p[dotIndex + 1..];
      (p[..dotIndex], p[dotIndex..])
    else
      (p, "")
  }

  /** The extension `os.path.splitext(p)[1]`. */
  function Ext(p: string): string
  {
    SplitExt(p).1
  }

  /** Below a directory, the final component is the name after the added '/'. */
  lemma BasenameBelow(dir: string, name: string)
    requires '/' !in name
    ensures Basename(dir + "/" + name) == name
  {
    var p := dir + "/" + name;
    assert p[|dir|] == '/';
    forall j | |dir| < j < |p|
      ensures p[j] != '/'
    {
      assert p[j] == name[j - |dir| - 1];
    }
    assert p[|dir| + 1..] == name;
  }

  /** A non-empty extension is the suffix from the path's last '.'. */
  lemma ExtIsLastDotSuffix(p: string, d: int)
    requires 0 <= d < |p| && p[d] == '.' && '.' !in p[d + 1..]
    requires Ext(p) != ""
    ensures Ext(p) == p[d..]
  {
  }

  /** A name with a non-dot stem and a dot-free suffix `x` has extension `"." + x`,
      whatever directory it sits in. */
  lemma ExtOfName(dir: string, stem: string, x: string)
    requires '/' !in stem && '/' !in x && '.' !in x
    requires exists i :: 0 <= i < |stem| && stem[i] != '.'
    ensures Ext(dir + "/" + stem + "." + x) == "." + x
  {
    var name := stem + "." + x;
    var p := dir + "/" + name;
    assert p == dir + "/" + stem + "." + x;
    BasenameBelow(dir, name);
    assert HasExtension(name) by {
      var i :| 0 <= i < |stem| && stem[i] != '.';
      assert name[i] != '.' && name[|stem|] == '.';
    }
    var d := |p| - |x| - 1;
    assert p[d..] == "." + x;
    assert p[d + 1..] == x;
    ExtIsLastDotSuffix(p, d);
  }

  /** Names such as `.bin` or `..cue` have no extension: leading dots are not separators. */
  lemma LeadingDotsOnly(dir: string, dots: string, x: string)
    requires forall i | 0 <= i < |dots| :: dots[i] == '.'
    requires '/' !in x && '.' !in x
    ensures Ext(dir + "/" + dots + x) == ""
  {
    var name := dots + x;
    assert dir + "/" + dots + x == dir + "/" + name;
    BasenameBelow(dir, name);
  }

  /** A path the walk yields, paired with its extension. */
  datatype Candidate = Candidate(path: string, ext: string)

  /** files_to_verify: the walk's paths paired with their extension, keeping
      those whose extension is one of `exts` (exact, case-sensitive match). */
  function Candidates(paths: seq<string>, exts: seq<string>): (cs: seq<Candidate>)
    ensures |cs| <= |paths|
    ensures forall c :: c in cs ==> c.path in paths && c.ext == Ext(c.path) && c.ext in exts
    ensures forall p :: p in paths && Ext(p) in exts ==> Candidate(p, Ext(p)) in cs
  {
    if |paths| == 0 then []
    else
      var e := Ext(paths[0]);
      assert forall p :: p in paths <==> p == paths[0] || p in paths[1..];
      (if e in exts then [Candidate(paths[0], e)] else []) + Candidates(paths[1..], exts)
  }

  /** The filter is lazy and order-preserving: filtering a concatenation of
      walks is the concatenation of the filtered walks. */
  lemma {:induction false} CandidatesAppend(a: seq<string>, b: seq<string>, exts: seq<string>)
    ensures Candidates(a + b, exts) == Candidates(a, exts) + Candidates(b, exts)
  {
    if |a| == 0 {
      assert a + b == b;
    } else {
      assert (a + b)[0] == a[0] && (a + b)[1..] == a[1..] + b;
      CandidatesAppend(a[1..], b, exts);
    }
  }

  /** Number of walk paths whose extension is `e`. */
  function PathsWithExt(paths: seq<string>, e: string): (n: nat)
    ensures n <= |paths|
  {
    if |paths| == 0 then 0
    else (if Ext(paths[0]) == e then 1 else 0) + PathsWithExt(paths[1..], e)
  }

  /** Number of candidates carrying extension `e`. */
  function CandidatesWithExt(cs: seq<Candidate>, e: string): (n: nat)
    ensures n <= |cs|
  {
    if |cs| == 0 then 0
    else (if cs[0].ext == e then 1 else 0) + CandidatesWithExt(cs[1..], e)
  }

  /** Every path of a listed extension becomes exactly one candidate and no
      other extension occurs among the candidates. */
  lemma {:induction false} CandidatesCount(paths: seq<string>, exts: seq<string>, e: string)
    ensures CandidatesWithExt(Candidates(paths, exts), e) == if e in exts then PathsWithExt(paths, e) else 0
  {
    if |paths| > 0 {
      CandidatesCount(paths[1..], exts, e);
      var x := Ext(paths[0]);
      var head := if x in exts then [Candidate(paths[0], x)] else [];
      var tail := Candidates(paths[1..], exts);
      assert Candidates(paths, exts) == head + tail;
      CandidatesWithExtAppend(head, tail, e);
      assert PathsWithExt(paths, e) == (if x == e then 1 else 0) + PathsWithExt(paths[1..], e);
    }
  }

  /** Counting candidates distributes over concatenation. */
  lemma {:induction false} CandidatesWithExtAppend(a: seq<Candidate>, b: seq<Candidate>, e: string)
    ensures CandidatesWithExt(a + b, e) == CandidatesWithExt(a, e) + CandidatesWithExt(b, e)
  {
    if |a| == 0 {
      assert a + b == b;
    } else {
      assert (a + b)[0] == a[0] && (a + b)[1..] == a[1..] + b;
      CandidatesWithExtAppend(a[1..], b, e);
    }
  }
}
