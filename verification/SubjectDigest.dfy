/** The byte stream that `subject_digest` feeds to SHA-256: length-prefixed files in path order. */
module SubjectDigest {
  import opened Bytes
  import opened Sequences
  import opened Sorting

  // ---------------------------------------------------------------- Byte-string order

  predicate BytesLte(a: seq<byte>, b: seq<byte>) {
    a == [] || (b != [] && (a[0] < b[0] || (a[0] == b[0] && BytesLte(a[1..], b[1..]))))
  }

  lemma {:induction false} LteTotal(a: seq<byte>, b: seq<byte>)
    ensures BytesLte(a, b) || BytesLte(b, a)
    ensures BytesLte(a, b) && BytesLte(b, a) ==> a == b
  {
    if a != [] && b != [] {
      LteTotal(a[1..], b[1..]);
      assert a == [a[0]] + a[1..] && b == [b[0]] + b[1..];
    }
  }

  lemma {:induction false} LteTransitive(a: seq<byte>, b: seq<byte>, c: seq<byte>)
    requires BytesLte(a, b) && BytesLte(b, c)
    ensures BytesLte(a, c)
  {
    if a != [] && a[0] == b[0] == c[0] {
      LteTransitive(a[1..], b[1..], c[1..]);
    }
  }

  lemma LteIsOrder()
    ensures TotalOrder(BytesLte)
  {
    forall a, b
      ensures BytesLte(a, b) || BytesLte(b, a)
      ensures BytesLte(a, b) && BytesLte(b, a) ==> a == b
    {
      LteTotal(a, b);
    }
    forall a, b, c | BytesLte(a, b) && BytesLte(b, c)
      ensures BytesLte(a, c)
    {
      LteTransitive(a, b, c);
    }
  }

  /** The order of Python's `bytes`: a prefix comes first, and otherwise the first byte that differs decides. */
  lemma {:induction false} LteIs(a: seq<byte>, b: seq<byte>)
    ensures BytesLte(a, b) <==> a <= b || exists k :: 0 <= k < |a| && k < |b| && a[..k] == b[..k] && a[k] < b[k]
  {
    LteIsLexicographic(a, b);
    if k :| 0 <= k < |a| && k < |b| && a[..k] == b[..k] && a[k] < b[k] {
      assert SmallerAt(a, b, k);
    }
  }

  lemma {:induction false} LteIsLexicographic(a: seq<byte>, b: seq<byte>)
    ensures BytesLte(a, b) <==> Lexicographic(a, b)
  {
    hide Lexicographic;
    LexicographicNone(b);
    LexicographicNone(a);
    if a != [] && b != [] {
      LexicographicFirst(a, b);
      LteIsLexicographic(a[1..], b[1..]);
    }
  }

  lemma SortedIs(s: seq<seq<byte>>)
    ensures forall i, j | 0 <= i < j < |s| :: Lexicographic(Sort(s, BytesLte)[i], Sort(s, BytesLte)[j])
  {
    hide Lexicographic, BytesLte;
    LteIsOrder();
    SortSorted(s, BytesLte);
    var r := Sort(s, BytesLte);
    forall i, j | 0 <= i < j < |s|
      ensures Lexicographic(r[i], r[j])
    {
      LteIsLexicographic(r[i], r[j]);
    }
  }

  // ---------------------------------------------------------------- Paths

  const SLASH: byte := 47
  const DOT: byte := 46

  /** The text up to the next slash, and what follows the slash. */
  function NextPart(path: seq<byte>): (r: (seq<byte>, seq<byte>))
    ensures path != [] ==> |r.1| < |path|
  {
    if path == [] then ([], [])
    else if path[0] == SLASH then ([], path[1..])
    else
      var (part, rest) := NextPart(path[1..]);
      ([path[0]] + part, rest)
  }

  /** The parts of a POSIX path; empty parts and single dots disappear. */
  function Parts(path: seq<byte>): seq<seq<byte>>
    decreases |path|
  {
    if path == [] then []
    else
      var (part, rest) := NextPart(path);
      if part == [] || part == [DOT] then Parts(rest) else [part] + Parts(rest)
  }

  function JoinParts(parts: seq<seq<byte>>): seq<byte> {
    if parts == [] then []
    else if |parts| == 1 then parts[0]
    else parts[0] + [SLASH] + JoinParts(parts[1..])
  }

  /** The normal form of a relative path without `..`, or `None`. */
  function Normalize(path: seq<byte>): Option<seq<byte>> {
    var parts := Parts(path);
    if (path != [] && path[0] == SLASH) || parts == [] || [DOT, DOT] in parts then None
    else Some(JoinParts(parts))
  }

  // ---------------------------------------------------------------- The normal form, written out

  ghost predicate NoSlash(parts: seq<seq<byte>>) {
    forall i | 0 <= i < |parts| :: 47 !in parts[i]
  }

  /** Neither empty nor a single dot. */
  predicate Kept(part: seq<byte>) {
    part != [] && part != [46]
  }

  /** Every path is made of strings without a slash. */
  lemma {:induction false} PathIsJoined(path: seq<byte>) returns (parts: seq<seq<byte>>)
    ensures parts != [] && NoSlash(parts) && path == JoinParts(parts)
  {
    if path == [] {
      parts := [[]];
    } else {
      var rest := PathIsJoined(path[1..]);
      assert path == [path[0]] + path[1..];
      if path[0] == 47 {
        parts := [[]] + rest;
        assert parts[1..] == rest;
      } else {
        parts := [[path[0]] + rest[0]] + rest[1..];
        assert parts[1..] == rest[1..];
        if |rest| > 1 {
          assert [path[0]] + (rest[0] + [47] + JoinParts(rest[1..])) == parts[0] + [47] + JoinParts(rest[1..]);
        }
      }
    }
  }

  lemma {:induction false} NextPartIs(part: seq<byte>, rest: seq<byte>)
    requires 47 !in part
    ensures NextPart(part) == (part, [])
    ensures NextPart(part + [47] + rest) == (part, rest)
  {
    if part == [] {
      assert part + [47] + rest == [47] + rest;
    } else {
      NextPartIs(part[1..], rest);
      assert part == [part[0]] + part[1..];
      assert (part + [47] + rest)[1..] == part[1..] + [47] + rest;
    }
  }

  lemma {:induction false} PartsAre(parts: seq<seq<byte>>)
    requires parts != [] && NoSlash(parts)
    ensures Parts(JoinParts(parts)) == Filter(parts, Kept)
    decreases |parts|
  {
    hide NextPart;
    if |parts| == 1 {
      assert parts == [parts[0]] && Filter(parts[1..], Kept) == [];
      NextPartIs(parts[0], []);
      assert Parts([]) == [];
    } else {
      NextPartIs(parts[0], JoinParts(parts[1..]));
      PartsAre(parts[1..]);
    }
  }

  /**
   A path is refused when it begins with a slash, has a component `..`, or has only empty components and
   single dots.  Any other becomes its remaining components with one slash between each two.
   */
  lemma NormalizeIs(parts: seq<seq<byte>>)
    requires parts != [] && NoSlash(parts)
    ensures Normalize(JoinParts(parts))
         == if (parts[0] == [] && |parts| > 1) || [46, 46] in parts || (forall p | p in parts :: !Kept(p))
            then None
            else Some(JoinParts(Filter(parts, Kept)))
  {
    hide Parts, Kept, Filter, JoinParts;
    PartsAre(parts);
    StartsWithSlash(parts);
    DotsKept();
    var kept := Filter(parts, Kept);
    FilterMembers(parts, Kept, [46, 46]);
    if p :| p in parts && Kept(p) {
      FilterMembers(parts, Kept, p);
    } else if kept != [] {
      FilterMembers(parts, Kept, kept[0]);
    }
  }

  lemma StartsWithSlash(parts: seq<seq<byte>>)
    requires parts != [] && NoSlash(parts)
    ensures var path := JoinParts(parts); path != [] && path[0] == 47 <==> parts[0] == [] && |parts| > 1
  {
    var (path, first) := (JoinParts(parts), parts[0]);
    if first != [] {
      assert path[0] == first[0] && first[0] in first;
    }
  }

  lemma DotsKept()
    ensures Kept([46, 46])
  {
  }

  /** A normal path is its own normal form. */
  lemma NormalizeStable(path: seq<byte>)
    requires Normalize(path).Some?
    ensures Normalize(Normalize(path).value) == Normalize(path)
  {
    hide Normalize, JoinParts;
    var parts := PathIsJoined(path);
    NormalizeIs(parts);
    var kept := Filter(parts, Kept);
    forall p
      ensures p in kept <==> p in parts && Kept(p)
    {
      FilterMembers(parts, Kept, p);
    }
    var p :| p in parts && Kept(p);
    assert p in kept;
    assert forall i | 0 <= i < |kept| :: kept[i] in kept && kept[i] in parts;
    FilterAll(kept, Kept);
    NormalizeIs(kept);
  }

  // ---------------------------------------------------------------- The stream

  datatype File = File(executable: bool, payload: seq<byte>)

  /** The regular files below the root, by normal path; nothing else may be hashed. */
  type Tree = map<seq<byte>, File>

  const DOMAIN: seq<byte> := [
    103, 108, 105, 102, 105, 115, 116, 111, 114, 101, 45, 104, 111, 115, 116, 101, 100, 45, 98, 101, 110, 99, 104,
    109, 97, 114, 107, 45, 115, 117, 98, 106, 101, 99, 116, 45, 118, 49, 0]

  function FileBytes(path: seq<byte>, f: File): seq<byte> {
    LE(|path|, 8) + path + [if f.executable then 1 else 0] + LE(|f.payload|, 8) + f.payload
  }

  function FilesBytes(paths: seq<seq<byte>>, tree: Tree): seq<byte>
    requires forall i | 0 <= i < |paths| :: paths[i] in tree
  {
    if paths == [] then [] else FileBytes(paths[0], tree[paths[0]]) + FilesBytes(paths[1..], tree)
  }

  predicate Usable(path: seq<byte>, tree: Tree) {
    Normalize(path).Some? && Normalize(path).value in tree
  }

  ghost predicate AllUsable(paths: seq<seq<byte>>, tree: Tree) {
    forall i | 0 <= i < |paths| :: Usable(paths[i], tree)
  }

  function Normals(paths: seq<seq<byte>>, tree: Tree): (r: seq<seq<byte>>)
    requires AllUsable(paths, tree)
    ensures |r| == |paths|
    ensures forall i | 0 <= i < |r| :: r[i] == Normalize(paths[i]).value && r[i] in tree
  {
    seq(|paths|, i requires 0 <= i < |paths| => assert Usable(paths[i], tree); Normalize(paths[i]).value)
  }

  /** Paths are admissible when each names a regular file and no two name the same one. */
  ghost predicate Admissible(paths: seq<seq<byte>>, tree: Tree) {
    paths != [] && AllUsable(paths, tree) && NoRepeats(Normals(paths, tree))
  }

  lemma SortedInTree(s: seq<seq<byte>>, tree: Tree)
    requires forall i | 0 <= i < |s| :: s[i] in tree
    ensures forall i | 0 <= i < |s| :: Sort(s, BytesLte)[i] in tree
  {
    hide Sort;
    var r := Sort(s, BytesLte);
    forall i | 0 <= i < |r|
      ensures r[i] in tree
    {
      assert r[i] in multiset(r);
      assert r[i] in s;
    }
  }

  ghost function HashedStream(paths: seq<seq<byte>>, tree: Tree): seq<byte>
    requires AllUsable(paths, tree)
  {
    SortedInTree(Normals(paths, tree), tree);
    DOMAIN + FilesBytes(Sort(Normals(paths, tree), BytesLte), tree)
  }

  /** Moves the element at `i` to its place among the sorted ones behind it. */
  method Sink(a: array<seq<byte>>, i: nat)
    requires i < a.Length
    modifies a
    ensures a[..] == old(a[..i]) + Insert(old(a[i]), old(a[i + 1..]), BytesLte)
  {
    hide BytesLte, Insert, MidMove;
    var x := a[i];
    var j := i;
    ghost var all := a[..];
    ghost var tail := all[i + 1..];
    MoveStarts(all, i);
    while j + 1 < a.Length && !BytesLte(x, a[j + 1])
      invariant i <= j < a.Length
      invariant MidMove(all, a[..], i, j)
      invariant Insert(x, tail, BytesLte) == tail[..j - i] + Insert(x, tail[j - i..], BytesLte)
    {
      ghost var before := a[..];
      MoveContinues(all, before, i, j);
      assert a[j + 1] == before[j + 1] == tail[j - i];
      InsertMoves(x, tail, j - i, BytesLte);
      a[j] := a[j + 1];
      assert a[..] == before[j := before[j + 1]];
      j := j + 1;
    }
    ghost var before := a[..];
    if j + 1 < a.Length {
      MoveContinues(all, before, i, j);
      assert a[j + 1] == before[j + 1] == tail[j - i];
    }
    a[j] := x;
    assert a[..] == before[j := x];
    InsertEnds(x, tail[j - i..], BytesLte);
    MoveEnds(all, before, i, j);
  }

  /** The element at `i` is on its way up: those it has passed moved down, and the hole is at `j`. */
  ghost predicate MidMove(s: seq<seq<byte>>, t: seq<seq<byte>>, i: nat, j: nat) {
    && i <= j < |s| == |t|
    && (forall k | 0 <= k < i || j < k < |s| :: t[k] == s[k])
    && (forall k | i <= k < j :: t[k] == s[k + 1])
  }

  lemma MoveStarts(s: seq<seq<byte>>, i: nat)
    requires i < |s|
    ensures MidMove(s, s, i, i)
  {
  }

  lemma MoveContinues(s: seq<seq<byte>>, t: seq<seq<byte>>, i: nat, j: nat)
    requires MidMove(s, t, i, j) && j + 1 < |s|
    ensures t[j + 1] == s[j + 1] && MidMove(s, t[j := t[j + 1]], i, j + 1)
  {
  }

  lemma MoveEnds(s: seq<seq<byte>>, t: seq<seq<byte>>, i: nat, j: nat)
    requires MidMove(s, t, i, j)
    ensures t[j := s[i]] == s[..i] + (s[i + 1..][..j - i] + ([s[i]] + s[i + 1..][j - i..]))
  {
    var u := t[j := s[i]];
    assert u[..i] == s[..i];
    assert u[i..j] == s[i + 1..][..j - i];
    assert u[j + 1..] == s[i + 1..][j - i..];
    assert u == u[..i] + (u[i..j] + ([u[j]] + u[j + 1..]));
  }

  lemma InsertMoves(x: seq<byte>, s: seq<seq<byte>>, k: nat, lte: (seq<byte>, seq<byte>) -> bool)
    requires k < |s| && !lte(x, s[k])
    requires Insert(x, s, lte) == s[..k] + Insert(x, s[k..], lte)
    ensures Insert(x, s, lte) == s[..k + 1] + Insert(x, s[k + 1..], lte)
  {
    hide Insert;
    InsertPasses(x, s[k..], lte);
    assert s[k..][1..] == s[k + 1..];
    assert s[..k + 1] == s[..k] + [s[k]];
  }

  lemma InsertPasses(x: seq<byte>, s: seq<seq<byte>>, lte: (seq<byte>, seq<byte>) -> bool)
    requires s != [] && !lte(x, s[0])
    ensures Insert(x, s, lte) == [s[0]] + Insert(x, s[1..], lte)
  {
  }

  lemma InsertEnds(x: seq<byte>, s: seq<seq<byte>>, lte: (seq<byte>, seq<byte>) -> bool)
    requires s == [] || lte(x, s[0])
    ensures Insert(x, s, lte) == [x] + s
  {
  }

  /** `list.sort` on the encoded paths, in place. */
  method SortPaths(a: array<seq<byte>>)
    modifies a
    ensures a[..] == Sort(old(a[..]), BytesLte)
    ensures multiset(a[..]) == multiset(old(a[..]))
    ensures forall i, j | 0 <= i < j < a.Length :: Lexicographic(a[i], a[j])
  {
    hide Insert, BytesLte, Lexicographic;
    ghost var s := a[..];
    assert s[a.Length..] == [];
    for i := a.Length downto 0
      invariant a[..i] == s[..i]
      invariant a[i..] == Sort(s[i..], BytesLte)
    {
      assert s[i..][1..] == s[i + 1..] && a[i] == s[..i + 1][i];
      ghost var before := a[..i];
      Sink(a, i);
      assert a[..i] == before && a[i..] == Insert(s[i], Sort(s[i + 1..], BytesLte), BytesLte);
    }
    SortedIs(s);
    assert s[0..] == s && a[0..] == a[..];
    assert forall i | 0 <= i < a.Length :: a[i] == a[..][i];
  }

  /** The loops of `subject_digest`; `None` wherever it raises. */
  method SubjectStream(paths: seq<seq<byte>>, tree: Tree) returns (stream: Option<seq<byte>>)
    ensures stream.Some? <==> Admissible(paths, tree)
    ensures stream.Some? ==> stream.value == HashedStream(paths, tree)
  {
    hide Normalize, Sort, FileBytes, DOMAIN, BytesLte;
    var normalized: seq<seq<byte>> := [];
    var seen: set<seq<byte>> := {};
    for i := 0 to |paths|
      invariant AllUsable(paths[..i], tree)
      invariant normalized == Normals(paths[..i], tree)
      invariant NoRepeats(normalized)
      invariant forall p :: p in seen <==> p in normalized
    {
      if !Usable(paths[i], tree) {
        assert !AllUsable(paths, tree);
        return None;
      }
      var relative := Normalize(paths[i]).value;
      if relative in seen {
        var j :| 0 <= j < i && normalized[j] == relative;
        RepeatRefused(paths, tree, j, i);
        return None;
      }
      assert paths[..i + 1] == paths[..i] + [paths[i]];
      normalized := normalized + [relative];
      seen := seen + {relative};
    }
    assert paths[..|paths|] == paths;
    if normalized == [] {
      return None;
    }
    var list := new seq<byte>[|normalized|](i requires 0 <= i < |normalized| => normalized[i]);
    assert list[..] == normalized;
    SortPaths(list);
    var sorted := list[..];
    SortedInTree(normalized, tree);
    var out := DOMAIN;
    for i := 0 to |sorted|
      invariant out + FilesBytes(sorted[i..], tree) == DOMAIN + FilesBytes(sorted, tree)
    {
      assert sorted[i..][1..] == sorted[i + 1..];
      var f := tree[sorted[i]];
      ghost var later := FilesBytes(sorted[i + 1..], tree);
      assert out + (FileBytes(sorted[i], f) + later) == out + FileBytes(sorted[i], f) + later;
      out := out + FileBytes(sorted[i], f);
    }
    assert sorted[|sorted|..] == [] && out + [] == out;
    stream := Some(out);
  }

  lemma RepeatRefused(paths: seq<seq<byte>>, tree: Tree, j: nat, i: nat)
    requires j < i < |paths|
    requires Normalize(paths[j]) == Normalize(paths[i])
    ensures !Admissible(paths, tree)
  {
    hide Normalize;
    if AllUsable(paths, tree) {
      assert Normals(paths, tree)[j] == Normals(paths, tree)[i];
    }
  }

  // ---------------------------------------------------------------- The order of the arguments

  lemma Remove<T>(b: seq<T>, x: T) returns (j: nat)
    requires x in multiset(b)
    ensures j < |b| && b[j] == x
    ensures multiset(b[..j] + b[j + 1..]) == multiset(b) - multiset{x}
  {
    j :| 0 <= j < |b| && b[j] == x;
    assert b == b[..j] + [b[j]] + b[j + 1..];
  }

  lemma UsableFollows(a: seq<seq<byte>>, b: seq<seq<byte>>, tree: Tree)
    requires multiset(a) == multiset(b) && AllUsable(a, tree)
    ensures AllUsable(b, tree)
  {
    hide Usable;
    forall i | 0 <= i < |b|
      ensures Usable(b[i], tree)
    {
      assert b[i] in multiset(a);
    }
  }

  lemma NormalsPick(b: seq<seq<byte>>, j: nat, tree: Tree)
    requires AllUsable(b, tree) && j < |b|
    ensures AllUsable(b[..j] + b[j + 1..], tree)
    ensures Normalize(b[j]).Some?
    ensures multiset(Normals(b, tree))
         == multiset{Normalize(b[j]).value} + multiset(Normals(b[..j] + b[j + 1..], tree))
  {
    hide Normalize;
    assert Usable(b[j], tree);
    var (n, r) := (Normals(b, tree), Normals(b[..j] + b[j + 1..], tree));
    assert r == n[..j] + n[j + 1..];
    assert n == n[..j] + [n[j]] + n[j + 1..];
  }

  lemma {:induction false} NormalsFollow(a: seq<seq<byte>>, b: seq<seq<byte>>, tree: Tree)
    requires multiset(a) == multiset(b) && AllUsable(a, tree)
    ensures AllUsable(b, tree)
    ensures multiset(Normals(a, tree)) == multiset(Normals(b, tree))
    decreases |a|
  {
    hide Normalize, Usable, AllUsable, Normals;
    UsableFollows(a, b, tree);
    assert |multiset(a)| == |multiset(b)|;
    if a == [] {
      assert b == [];
    } else {
      var x := a[0];
      assert a == [x] + a[1..];
      assert a[..0] + a[0 + 1..] == a[1..];
      assert x in multiset(b);
      var j := Remove(b, x);
      NormalsPick(a, 0, tree);
      NormalsPick(b, j, tree);
      NormalsFollow(a[1..], b[..j] + b[j + 1..], tree);
    }
  }

  /** The order in which the paths are listed does not matter, for acceptance or for the stream. */
  lemma OrderIrrelevant(a: seq<seq<byte>>, b: seq<seq<byte>>, tree: Tree)
    requires multiset(a) == multiset(b) && Admissible(a, tree)
    ensures Admissible(b, tree)
    ensures HashedStream(a, tree) == HashedStream(b, tree)
  {
    hide Normalize, Usable, Sort, BytesLte, FilesBytes, DOMAIN;
    NormalsFollow(a, b, tree);
    NoRepeatsFollows(Normals(a, tree), Normals(b, tree));
    assert |multiset(a)| == |multiset(b)|;
    LteIsOrder();
    SortIgnoresOrder(Normals(a, tree), Normals(b, tree), BytesLte);
  }

  // ---------------------------------------------------------------- The stream determines the files

  predicate FileFits(path: seq<byte>, f: File) {
    |path| < Limit(8) && |f.payload| < Limit(8)
  }

  lemma Cancel(a: seq<byte>, x: seq<byte>, b: seq<byte>, y: seq<byte>)
    requires |a| == |b| && a + x == b + y
    ensures a == b && x == y
  {
    assert a == (a + x)[..|a|] && b == (b + y)[..|b|];
    assert x == (a + x)[|a|..] && y == (b + y)[|b|..];
  }

  /** The fields of a file one after the other, `rest` behind them. */
  function FileThen(path: seq<byte>, f: File, rest: seq<byte>): seq<byte> {
    LE(|path|, 8) + (path + ([if f.executable then 1 else 0] + (LE(|f.payload|, 8) + (f.payload + rest))))
  }

  lemma FileThenIs(path: seq<byte>, f: File, rest: seq<byte>)
    ensures FileBytes(path, f) + rest == FileThen(path, f, rest)
  {
    hide LE;
  }

  lemma FilePrefix(p: seq<byte>, f: File, q: seq<byte>, g: File, x: seq<byte>, y: seq<byte>)
    requires FileFits(p, f) && FileFits(q, g)
    requires FileBytes(p, f) + x == FileBytes(q, g) + y
    ensures p == q && f == g && x == y
  {
    hide LE, Limit, FileBytes;
    FileThenIs(p, f, x);
    FileThenIs(q, g, y);
    var e: seq<byte> := [if f.executable then 1 else 0];
    var e': seq<byte> := [if g.executable then 1 else 0];
    var (a, a') := (f.payload + x, g.payload + y);
    var (b, b') := (LE(|f.payload|, 8) + a, LE(|g.payload|, 8) + a');
    Cancel(LE(|p|, 8), p + (e + b), LE(|q|, 8), q + (e' + b'));
    LEInjective(|p|, |q|, 8);
    Cancel(p, e + b, q, e' + b');
    Cancel(e, b, e', b');
    assert e[0] == e'[0];
    Cancel(LE(|f.payload|, 8), a, LE(|g.payload|, 8), a');
    LEInjective(|f.payload|, |g.payload|, 8);
    Cancel(f.payload, x, g.payload, y);
  }

  lemma {:induction false} FilesDetermined(s: seq<seq<byte>>, tree: Tree, s': seq<seq<byte>>, tree': Tree)
    requires forall i | 0 <= i < |s| :: s[i] in tree && FileFits(s[i], tree[s[i]])
    requires forall i | 0 <= i < |s'| :: s'[i] in tree' && FileFits(s'[i], tree'[s'[i]])
    requires FilesBytes(s, tree) == FilesBytes(s', tree')
    ensures s == s'
    ensures forall i | 0 <= i < |s| :: tree[s[i]] == tree'[s[i]]
    decreases |s|
  {
    hide FileBytes, FileFits;
    FilesEmpty(s, tree);
    FilesEmpty(s', tree');
    if s != [] {
      FilePrefix(s[0], tree[s[0]], s'[0], tree'[s'[0]], FilesBytes(s[1..], tree), FilesBytes(s'[1..], tree'));
      FilesDetermined(s[1..], tree, s'[1..], tree');
      assert s == [s[0]] + s[1..] && s' == [s'[0]] + s'[1..];
    }
  }

  lemma FilesEmpty(s: seq<seq<byte>>, tree: Tree)
    requires forall i | 0 <= i < |s| :: s[i] in tree
    ensures FilesBytes(s, tree) == [] <==> s == []
  {
    hide LE;
  }

  /** Two subjects with the same hashed stream are the same files with the same contents. */
  lemma StreamDetermines(paths: seq<seq<byte>>, tree: Tree, paths': seq<seq<byte>>, tree': Tree)
    requires Admissible(paths, tree) && Admissible(paths', tree')
    requires forall p | p in tree :: FileFits(p, tree[p])
    requires forall p | p in tree' :: FileFits(p, tree'[p])
    requires HashedStream(paths, tree) == HashedStream(paths', tree')
    ensures multiset(Normals(paths, tree)) == multiset(Normals(paths', tree'))
    ensures forall p | p in Normals(paths, tree) :: p in tree' && tree[p] == tree'[p]
  {
    hide Normalize, Usable, Sort, BytesLte, FilesBytes, DOMAIN, FileFits;
    var (s, s') := (Sort(Normals(paths, tree), BytesLte), Sort(Normals(paths', tree'), BytesLte));
    SortedInTree(Normals(paths, tree), tree);
    SortedInTree(Normals(paths', tree'), tree');
    assert FilesBytes(s, tree) == (DOMAIN + FilesBytes(s, tree))[|DOMAIN|..];
    assert FilesBytes(s', tree') == (DOMAIN + FilesBytes(s', tree'))[|DOMAIN|..];
    FilesDetermined(s, tree, s', tree');
    forall p | p in Normals(paths, tree)
      ensures p in tree' && tree[p] == tree'[p]
    {
      assert p in multiset(s);
      var i :| 0 <= i < |s| && s[i] == p;
    }
  }

  // ---------------------------------------------------------------- Reading the stream

  /** What is hashed of one file. */
  datatype Hashed = Hashed(path: seq<byte>, executable: byte, payload: seq<byte>)

  /** The first file of a stream, and what follows it. */
  function ReadFile(s: seq<byte>): (r: Option<(Hashed, seq<byte>)>)
    ensures r.Some? ==> |r.value.1| < |s|
  {
    if |s| < 17 || |s| - 17 < Field(s, 0, 8) then None
    else
      var n := Field(s, 0, 8);
      var k := Field(s, 9 + n, 8);
      if |s| - 17 - n < k then None
      else Some((Hashed(s[8..8 + n], s[8 + n], s[17 + n..17 + n + k]), s[17 + n + k..]))
  }

  function ReadFiles(s: seq<byte>): Option<seq<Hashed>>
    decreases |s|
  {
    if s == [] then Some([])
    else match ReadFile(s)
      case None => None
      case Some((f, rest)) =>
        match ReadFiles(rest)
        case None => None
        case Some(fs) => Some([f] + fs)
  }

  /** What is to be read of one file: 1 for an executable one and 0 for any other. */
  function HashedFile(path: seq<byte>, f: File): Hashed {
    Hashed(path, if f.executable then 1 else 0, f.payload)
  }

  lemma FileRead(path: seq<byte>, f: File, rest: seq<byte>)
    requires FileFits(path, f)
    ensures ReadFile(FileBytes(path, f) + rest) == Some((HashedFile(path, f), rest))
  {
    hide LE, Value, Limit;
    var s := FileBytes(path, f) + rest;
    var (n, k) := (|path|, |f.payload|);
    ValueOfLE(n, 8);
    ValueOfLE(k, 8);
    assert s[0..8] == LE(n, 8);
    assert s[8..8 + n] == path;
    assert s[9 + n..9 + n + 8] == LE(k, 8);
    assert s[17 + n..17 + n + k] == f.payload;
    assert s[17 + n + k..] == rest;
  }

  lemma {:induction false} FilesRead(s: seq<seq<byte>>, tree: Tree)
    requires forall i | 0 <= i < |s| :: s[i] in tree && FileFits(s[i], tree[s[i]])
    ensures var files := ReadFiles(FilesBytes(s, tree));
            && files.Some? && |files.value| == |s|
            && forall i | 0 <= i < |s| :: files.value[i] == HashedFile(s[i], tree[s[i]])
  {
    hide FileBytes, FileFits, ReadFile, HashedFile;
    FilesEmpty(s, tree);
    if s != [] {
      var rest := s[1..];
      FileRead(s[0], tree[s[0]], FilesBytes(rest, tree));
      FilesRead(rest, tree);
    }
  }

  /** The text that every stream begins with, and the zero byte behind it. */
  lemma DomainIs()
    ensures |DOMAIN| == 39 && DOMAIN[38] == 0
    ensures forall i | 0 <= i < 38 :: DOMAIN[i] == "glifistore-hosted-benchmark-subject-v1"[i] as int
  {
  }

  lemma NormalIs(paths: seq<seq<byte>>, tree: Tree, i: nat)
    requires AllUsable(paths, tree) && i < |paths|
    ensures Normalize(paths[i]) == Some(Normals(paths, tree)[i])
  {
    hide Normalize;
    assert Usable(paths[i], tree);
  }

  /**
   What is read back from the hashed stream: the files named by the paths, in byte order of their normal
   paths and each once, with their executable bits and contents.
   */
  lemma StreamReads(paths: seq<seq<byte>>, tree: Tree)
    requires Admissible(paths, tree)
    requires forall p | p in tree :: FileFits(p, tree[p])
    ensures |HashedStream(paths, tree)| >= 39 && ReadFiles(HashedStream(paths, tree)[39..]).Some?
    ensures forall i | 0 <= i < 38 ::
              HashedStream(paths, tree)[i] == "glifistore-hosted-benchmark-subject-v1"[i] as int
    ensures HashedStream(paths, tree)[38] == 0
    ensures var files := ReadFiles(HashedStream(paths, tree)[39..]).value;
            && |files| == |paths|
            && (forall i | 0 <= i < |paths| ::
                  exists j :: 0 <= j < |files| && Some(files[j].path) == Normalize(paths[i]))
            && (forall i | 0 <= i < |files| ::
                  && files[i].path in tree
                  && files[i].executable == (if tree[files[i].path].executable then 1 else 0)
                  && files[i].payload == tree[files[i].path].payload)
            && (forall i, j | 0 <= i < j < |files| ::
                  files[i].path != files[j].path && Lexicographic(files[i].path, files[j].path))
  {
    hide Normalize, Usable, Sort, BytesLte, FilesBytes, DOMAIN, FileFits, Lexicographic, ReadFiles;
    DomainIs();
    var normals := Normals(paths, tree);
    var s := Sort(normals, BytesLte);
    SortedInTree(normals, tree);
    FilesRead(s, tree);
    SortedIs(normals);
    NoRepeatsFollows(normals, s);
    assert HashedStream(paths, tree)[39..] == FilesBytes(s, tree);
    var files := ReadFiles(FilesBytes(s, tree)).value;
    forall i | 0 <= i < |paths|
      ensures exists j :: 0 <= j < |files| && Some(files[j].path) == Normalize(paths[i])
    {
      assert normals[i] in multiset(s);
      var j :| 0 <= j < |s| && s[j] == normals[i];
      NormalIs(paths, tree, i);
      assert files[j].path == s[j];
    }
  }
}
