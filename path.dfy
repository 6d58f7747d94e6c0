/** The file-path helpers: `find` (filter a directory listing by pattern,
    extension and antipattern, optionally join each name to the directory and
    sort), `sort` (sort a caller's list of paths in place) and `split`
    (directory, base name and extension of a path, by POSIX rules).
    The directory listing is an input sequence: its order is whatever the
    file system gives, so nothing here assumes it. */
module Path {
  import opened Strings
  import opened Order

  // ---------------------------------------------------------------------
  // find: the filter
  // ---------------------------------------------------------------------

  /** Python's `p[-n:]` for `n >= 0`: `-0` is `0`, so `n == 0` gives all of `p`,
      and a start before the beginning of `p` is clamped to it. */
  function SuffixSlice(p: string, n: nat): string {
    if n == 0 || n >= |p| then p else p[|p| - n..]
  }

  /** The extension test as written: `ext in p[-len(ext):]`. */
  predicate ExtMatches(name: string, ext: string) {
    Contains(SuffixSlice(name, |ext|), ext)
  }

  /** The three-part condition of the comprehension in `find`. */
  predicate Keep(name: string, pattern: string, ext: string, antipattern: string) {
    && Contains(name, pattern)
    && ExtMatches(name, ext)
    && (!Contains(name, antipattern) || antipattern == [])
  }

  /** The extension test accepts a name exactly when the name ends with `ext`;
      so an empty `ext` accepts every name and one longer than the name rejects it. */
  lemma ExtMatchesIffEndsWith(name: string, ext: string)
    ensures ExtMatches(name, ext) <==> EndsWith(name, ext)
  {
    if |ext| == 0 {
      assert IsPrefix(ext, name);
      assert name[|name|..] == [];
    } else if |ext| > |name| {
      ContainsTooLong(name, ext);
    } else {
      ContainsSameLength(SuffixSlice(name, |ext|), ext);
      if |ext| == |name| {
        assert name[0..] == name;
      }
    }
  }

  /** The filter read as three plain conditions: the name contains `pattern`,
      ends with `ext`, and the antipattern is empty or absent from it. */
  lemma KeepIff(name: string, pattern: string, ext: string, antipattern: string)
    ensures Keep(name, pattern, ext, antipattern) <==>
      && Contains(name, pattern)
      && EndsWith(name, ext)
      && (antipattern == [] || !Contains(name, antipattern))
  {
    ExtMatchesIffEndsWith(name, ext);
  }

  /** Empty filters reject nothing: an empty pattern, extension and antipattern keep every name. */
  lemma EmptyFiltersKeep(name: string)
    ensures Keep(name, [], [], [])
  {
  }

  /** A non-empty antipattern that occurs in a name excludes it, whatever the pattern and extension. */
  lemma AntipatternExcludes(name: string, pattern: string, ext: string, antipattern: string)
    requires antipattern != [] && Contains(name, antipattern)
    ensures !Keep(name, pattern, ext, antipattern)
  {
  }

  /** The list comprehension of `find`: the names of the listing that pass the
      filter, in listing order. */
  function Filter(listing: seq<string>, pattern: string, ext: string, antipattern: string): (r: seq<string>)
    ensures |r| <= |listing|
    ensures forall x :: x in r ==> x in listing && Keep(x, pattern, ext, antipattern)
  {
    if listing == [] then []
    else
      var rest := Filter(listing[1..], pattern, ext, antipattern);
      if Keep(listing[0], pattern, ext, antipattern) then [listing[0]] + rest else rest
  }

  /** `s` is `t` with some elements left out, the rest in their order. */
  predicate IsSubsequence(s: seq<string>, t: seq<string>)
    decreases |t|
  {
    s == [] || (t != [] && ((s[0] == t[0] && IsSubsequence(s[1..], t[1..])) || IsSubsequence(s, t[1..])))
  }

  /** The filter neither adds nor reorders: its result is a subsequence of the listing. */
  lemma {:induction false} FilterIsSubsequence(listing: seq<string>, pattern: string, ext: string, antipattern: string)
    ensures IsSubsequence(Filter(listing, pattern, ext, antipattern), listing)
    decreases |listing|
  {
    if listing != [] {
      FilterIsSubsequence(listing[1..], pattern, ext, antipattern);
    }
  }

  /** The filter neither drops nor duplicates: a name occurs in the result as
      often as in the listing when it passes, and never when it does not. */
  lemma {:induction false} FilterCount(listing: seq<string>, pattern: string, ext: string, antipattern: string, x: string)
    ensures multiset(Filter(listing, pattern, ext, antipattern))[x] ==
      if Keep(x, pattern, ext, antipattern) then multiset(listing)[x] else 0
    decreases |listing|
  {
    if listing != [] {
      var h, rest := listing[0], Filter(listing[1..], pattern, ext, antipattern);
      FilterCount(listing[1..], pattern, ext, antipattern, x);
      assert listing == [h] + listing[1..];
      assert multiset(listing) == multiset{h} + multiset(listing[1..]);
      if Keep(h, pattern, ext, antipattern) {
        assert Filter(listing, pattern, ext, antipattern) == [h] + rest;
        assert multiset([h] + rest) == multiset{h} + multiset(rest);
      } else {
        assert Filter(listing, pattern, ext, antipattern) == rest;
      }
    }
  }

  /** With empty filters the result is the listing itself. */
  lemma {:induction false} FilterEmptyFilters(listing: seq<string>)
    ensures Filter(listing, [], [], []) == listing
    decreases |listing|
  {
    if listing != [] {
      EmptyFiltersKeep(listing[0]);
      FilterEmptyFilters(listing[1..]);
    }
  }

  /** The filter does not depend on the listing's order, only on its names. */
  lemma FilterPermutation(l1: seq<string>, l2: seq<string>, pattern: string, ext: string, antipattern: string)
    requires multiset(l1) == multiset(l2)
    ensures multiset(Filter(l1, pattern, ext, antipattern)) == multiset(Filter(l2, pattern, ext, antipattern))
  {
    forall x
      ensures multiset(Filter(l1, pattern, ext, antipattern))[x] == multiset(Filter(l2, pattern, ext, antipattern))[x]
    {
      FilterCount(l1, pattern, ext, antipattern, x);
      FilterCount(l2, pattern, ext, antipattern, x);
    }
  }

  // ---------------------------------------------------------------------
  // find: joining to the directory
  // ---------------------------------------------------------------------

  /** POSIX `os.path.join(dir, name)` for one name: an absolute name replaces
      the directory; otherwise a `/` is put between them unless `dir` is empty
      or already ends in `/`. */
  function Join(dir: string, name: string): string {
    if IsPrefix("/", name) then name
    else if dir == [] || EndsWith(dir, "/") then dir + name
    else dir + "/" + name
  }

  /** The joined path ends with the name; a relative name is put after the
      directory and at most one added `/`, so the path starts with `dir`. */
  lemma JoinShape(dir: string, name: string)
    ensures EndsWith(Join(dir, name), name)
    ensures !IsPrefix("/", name) ==> IsPrefix(dir, Join(dir, name))
    ensures !IsPrefix("/", name) ==> |Join(dir, name)| <= |dir| + 1 + |name|
  {
    var r := Join(dir, name);
    if !IsPrefix("/", name) {
      assert r[..|dir|] == dir;
    }
    assert r[|r| - |name|..] == name;
  }

  /** `[os.path.join(path, p) for p in paths]`. */
  function JoinAll(dir: string, names: seq<string>): (r: seq<string>)
    ensures |r| == |names|
  {
    if names == [] then [] else [Join(dir, names[0])] + JoinAll(dir, names[1..])
  }

  /** Entry `i` of the joined list is the directory joined to name `i`. */
  lemma {:induction false} JoinAllAt(dir: string, names: seq<string>, i: int)
    requires 0 <= i < |names|
    ensures JoinAll(dir, names)[i] == Join(dir, names[i])
    decreases |names|
  {
    if 0 < i {
      JoinAllAt(dir, names[1..], i - 1);
    }
  }

  lemma {:induction false} JoinAllConcat(dir: string, a: seq<string>, b: seq<string>)
    ensures JoinAll(dir, a + b) == JoinAll(dir, a) + JoinAll(dir, b)
    decreases |a|
  {
    if a == [] {
      assert a + b == b;
    } else {
      var x := Join(dir, a[0]);
      JoinAllConcat(dir, a[1..], b);
      assert (a + b)[0] == a[0] && (a + b)[1..] == a[1..] + b;
      assert JoinAll(dir, a + b) == [x] + (JoinAll(dir, a[1..]) + JoinAll(dir, b));
      assert JoinAll(dir, a) == [x] + JoinAll(dir, a[1..]);
      assert [x] + (JoinAll(dir, a[1..]) + JoinAll(dir, b)) == ([x] + JoinAll(dir, a[1..])) + JoinAll(dir, b);
    }
  }

  /** Taking one name out of the middle of a list takes its joined path out of the joined list. */
  lemma JoinAllRemove(dir: string, a: seq<string>, x: string, b: seq<string>)
    ensures multiset(JoinAll(dir, a + [x] + b)) == multiset{Join(dir, x)} + multiset(JoinAll(dir, a + b))
  {
    JoinAllConcat(dir, a + [x], b);
    JoinAllConcat(dir, a, [x]);
    JoinAllConcat(dir, a, b);
    assert JoinAll(dir, [x]) == [Join(dir, x)];
  }

  /** Cutting element `k` out of `s`: what is left holds the other elements. */
  lemma RemoveAt(s: seq<string>, k: int)
    requires 0 <= k < |s|
    ensures s == s[..k] + [s[k]] + s[k + 1..]
    ensures multiset(s[..k] + s[k + 1..]) == multiset(s) - multiset{s[k]}
  {
    assert s == s[..k] + [s[k]] + s[k + 1..];
  }

  /** Rearranging the names rearranges the joined paths the same way. */
  lemma {:induction false} JoinAllPermutation(dir: string, l1: seq<string>, l2: seq<string>)
    requires multiset(l1) == multiset(l2)
    ensures multiset(JoinAll(dir, l1)) == multiset(JoinAll(dir, l2))
    decreases |l1|
  {
    if l1 == [] {
      assert |multiset(l2)| == 0;
    } else {
      var x := l1[0];
      assert x in multiset(l2);
      var k :| 0 <= k < |l2| && l2[k] == x;
      var before, after := l2[..k], l2[k + 1..];
      RemoveAt(l2, k);
      RemoveAt(l1, 0);
      JoinAllPermutation(dir, l1[1..], before + after);
      JoinAllRemove(dir, before, x, after);
      JoinAllRemove(dir, [], x, l1[1..]);
    }
  }

  // ---------------------------------------------------------------------
  // find and sort
  // ---------------------------------------------------------------------

  /** What `find` holds just before its optional sort (with `absolute` off). */
  function FindUnsorted(dir: string, listing: seq<string>, pattern: string, ext: string, antipattern: string,
                        includePath: bool): seq<string>
  {
    var names := Filter(listing, pattern, ext, antipattern);
    if includePath then JoinAll(dir, names) else names
  }

  /** With `include_path`, entry `i` of the unsorted result is the directory
      joined to the `i`-th kept name, and when that name holds no `/` its last
      path component is the name;
      without it, the entries are the kept names themselves. */
  lemma FindUnsortedEntries(dir: string, listing: seq<string>, pattern: string, ext: string, antipattern: string,
                            includePath: bool, i: int)
    requires 0 <= i < |Filter(listing, pattern, ext, antipattern)|
    ensures |FindUnsorted(dir, listing, pattern, ext, antipattern, includePath)| == |Filter(listing, pattern, ext, antipattern)|
    ensures var name := Filter(listing, pattern, ext, antipattern)[i];
            var entry := FindUnsorted(dir, listing, pattern, ext, antipattern, includePath)[i];
            && (includePath ==> entry == Join(dir, name))
            && (includePath && '/' !in name ==> Split(entry).name + Split(entry).ext == name)
            && (!includePath ==> entry == name)
  {
    var name := Filter(listing, pattern, ext, antipattern)[i];
    JoinAllAt(dir, Filter(listing, pattern, ext, antipattern), i);
    if '/' !in name {
      JoinLastComponent(dir, name);
    }
  }

  /** The listing's order does not matter to what `find` returns, only to the
      order it returns it in. */
  lemma FindListingOrder(dir: string, l1: seq<string>, l2: seq<string>, pattern: string, ext: string,
                         antipattern: string, includePath: bool)
    requires multiset(l1) == multiset(l2)
    ensures multiset(FindUnsorted(dir, l1, pattern, ext, antipattern, includePath)) ==
            multiset(FindUnsorted(dir, l2, pattern, ext, antipattern, includePath))
  {
    FilterPermutation(l1, l2, pattern, ext, antipattern);
    if includePath {
      JoinAllPermutation(dir, Filter(l1, pattern, ext, antipattern), Filter(l2, pattern, ext, antipattern));
    }
  }

  /** With `sort`, two listings of the same names give the very same result. */
  lemma SortedFindDeterministic(dir: string, l1: seq<string>, l2: seq<string>, pattern: string, ext: string,
                                antipattern: string, includePath: bool, r1: seq<string>, r2: seq<string>)
    requires multiset(l1) == multiset(l2)
    requires Sorted(r1) && multiset(r1) == multiset(FindUnsorted(dir, l1, pattern, ext, antipattern, includePath))
    requires Sorted(r2) && multiset(r2) == multiset(FindUnsorted(dir, l2, pattern, ext, antipattern, includePath))
    ensures r1 == r2
  {
    FindListingOrder(dir, l1, l2, pattern, ext, antipattern, includePath);
    SortedUnique(r1, r2);
  }

  /** Exchanges two elements of an array. */
  method Swap(a: array<string>, i: int, j: int)
    requires 0 <= i < a.Length && 0 <= j < a.Length
    modifies a
    ensures a[i] == old(a[j]) && a[j] == old(a[i])
    ensures forall m :: 0 <= m < a.Length && m != i && m != j ==> a[m] == old(a[m])
    ensures multiset(a[..]) == old(multiset(a[..]))
  {
    a[i], a[j] := a[j], a[i];
  }

  /** Python's `list.sort()` on a list of strings: rearranges it in place into
      ascending order. */
  method SortInPlace(a: array<string>)
    modifies a
    ensures Sorted(a[..])
    ensures multiset(a[..]) == old(multiset(a[..]))
  {
    var i := 0;
    while i < a.Length
      invariant 0 <= i <= a.Length
      invariant forall k, l :: 0 <= k < l < i ==> LessEq(a[k], a[l])
      invariant multiset(a[..]) == old(multiset(a[..]))
    {
      var j := i;
      while 0 < j && !LessEq(a[j - 1], a[j])
        invariant 0 <= j <= i
        invariant forall k, l :: 0 <= k < l <= i && k != j && l != j ==> LessEq(a[k], a[l])
        invariant forall l :: j < l <= i ==> LessEq(a[j], a[l])
        invariant multiset(a[..]) == old(multiset(a[..]))
      {
        Total(a[j - 1], a[j]);
        Swap(a, j - 1, j);
        j := j - 1;
      }
      forall k, l | 0 <= k < l <= i
        ensures LessEq(a[k], a[l])
      {
        if l == j && k < j - 1 {
          Transitive(a[k], a[j - 1], a[j]);
        }
      }
      i := i + 1;
    }
  }

  /** `find(path, pattern, ext, antipattern, include_path, absolute=False, sort)`,
      with the directory's listing given as `listing`. */
  method Find(dir: string, listing: seq<string>, pattern: string, ext: string, antipattern: string,
              includePath: bool, sort: bool) returns (paths: seq<string>)
    ensures !sort ==> paths == FindUnsorted(dir, listing, pattern, ext, antipattern, includePath)
    ensures sort ==> Sorted(paths)
    ensures sort ==> multiset(paths) == multiset(FindUnsorted(dir, listing, pattern, ext, antipattern, includePath))
  {
    paths := Filter(listing, pattern, ext, antipattern);
    if includePath {
      paths := JoinAll(dir, paths);
    }
    if sort {
      var a := new string[|paths|](i requires 0 <= i < |paths| => paths[i]);
      assert a[..] == paths;
      SortInPlace(a);
      paths := a[..];
    }
  }

  /** `sort(paths)`: sorts the caller's list in place and returns that same list. */
  method Sort(paths: array<string>) returns (r: array<string>)
    modifies paths
    ensures r == paths
    ensures Sorted(r[..])
    ensures multiset(r[..]) == old(multiset(paths[..]))
  {
    SortInPlace(paths);
    r := paths;
  }

  // ---------------------------------------------------------------------
  // split
  // ---------------------------------------------------------------------

  /** The record `split` returns: `{'path': ..., 'name': ..., 'ext': ...}`. */
  datatype PathParts = PathParts(path: string, name: string, ext: string)

  /** POSIX `os.path.split`: the head is everything up to and including the
      last `/`, with its trailing slashes removed unless it is only slashes;
      the tail is the rest. */
  function PosixSplit(p: string): (string, string) {
    var i := LastIndexOf(p, '/') + 1;
    (StripHead(p[..i]), p[i..])
  }

  /** The head `os.path.split` keeps: its trailing slashes are removed unless
      it is empty or only slashes. */
  function StripHead(head: string): string {
    if head != [] && !AllChar(head, '/') then RStrip(head, '/') else head
  }

  /** Some character of `p[lo..hi]` is not a dot. */
  predicate HasNonDot(p: string, lo: int, hi: int)
    requires 0 <= lo && hi <= |p|
  {
    exists j :: lo <= j < hi && p[j] != '.'
  }

  /** POSIX `os.path.splitext`: the extension starts at the last dot after the
      last `/`, provided some character before that dot (after the `/`) is not
      a dot; otherwise the extension is empty. */
  function SplitExt(p: string): (string, string) {
    var sepIndex := LastIndexOf(p, '/');
    var dotIndex := LastIndexOf(p, '.');
    if dotIndex > sepIndex && HasNonDot(p, sepIndex + 1, dotIndex)
    then (p[..dotIndex], p[dotIndex..])
    else (p, [])
  }

  /** `split(path)`. */
  function Split(p: string): PathParts {
    var (head, tail) := PosixSplit(p);
    var (root, ext) := SplitExt(tail);
    PathParts(head, root, ext)
  }

  /** The part of `p` after its last `/`: all of `p` when it has no `/`. */
  function LastComponent(p: string): (r: string)
    ensures '/' !in r && EndsWith(p, r)
    ensures |r| == |p| || p[|p| - |r| - 1] == '/'
  {
    p[LastIndexOf(p, '/') + 1..]
  }

  /** `split` is `splitext` applied to the last component. */
  lemma SplitUnfold(p: string)
    ensures Split(p).path == PosixSplit(p).0
    ensures Split(p).name == SplitExt(LastComponent(p)).0
    ensures Split(p).ext == SplitExt(LastComponent(p)).1
  {
  }

  /** What `splitext` does to a name without `/`: the two parts concatenate
      back to the name, neither holds a `/`, and the extension is empty or a
      dot followed by no other dot. */
  lemma SplitExtOfName(t: string)
    requires '/' !in t
    ensures SplitExt(t).0 + SplitExt(t).1 == t
    ensures '/' !in SplitExt(t).0 && '/' !in SplitExt(t).1
    ensures SplitExt(t).1 == [] || (SplitExt(t).1[0] == '.' && '.' !in SplitExt(t).1[1..])
  {
  }

  /** Name and extension put back together give the last component of the input,
      and neither holds a `/`. */
  lemma SplitNameExt(p: string)
    ensures Split(p).name + Split(p).ext == LastComponent(p)
    ensures '/' !in Split(p).name && '/' !in Split(p).ext
  {
    SplitUnfold(p);
    SplitExtOfName(LastComponent(p));
  }

  /** A bare file name (no `/`) has an empty directory part. */
  lemma SplitBareName(p: string)
    requires '/' !in p
    ensures Split(p).path == []
    ensures Split(p).name + Split(p).ext == p
  {
  }

  /** The directory part is a prefix of the input that ends before the last
      component, followed in it only by
      slashes up to the last component; it is empty exactly when the input has
      no `/`; a head of nothing but slashes is kept whole, and otherwise the
      directory part does not end in `/`. */
  lemma SplitPath(p: string)
    ensures IsPrefix(Split(p).path, p)
    ensures |Split(p).path| <= |p| - |LastComponent(p)|
    ensures forall k :: |Split(p).path| <= k < |p| - |LastComponent(p)| ==> p[k] == '/'
    ensures Split(p).path == [] <==> '/' !in p
    ensures Split(p).path != [] && Split(p).path[|Split(p).path| - 1] == '/' ==> AllChar(Split(p).path, '/')
    ensures AllChar(p[..|p| - |LastComponent(p)|], '/') ==> Split(p).path == p[..|p| - |LastComponent(p)|]
  {
    var i := LastIndexOf(p, '/') + 1;
    var head := p[..i];
    SplitUnfold(p);
    assert |p| - |LastComponent(p)| == i;
    StripHeadShape(head);
    assert head[..|StripHead(head)|] == p[..|StripHead(head)|];
    assert head == [] <==> '/' !in p by {
      if '/' in p {
        var k :| 0 <= k < |p| && p[k] == '/';
        assert k < i;
      }
    }
    forall k | |StripHead(head)| <= k < i
      ensures p[k] == '/'
    {
      assert head[k] == p[k];
    }
  }

  /** What `os.path.split` keeps of a head: a prefix of it, followed in it only
      by slashes; empty only when the head is; ending in `/` only when made of
      nothing but slashes, and then the whole head. */
  lemma StripHeadShape(head: string)
    ensures IsPrefix(StripHead(head), head)
    ensures forall k :: |StripHead(head)| <= k < |head| ==> head[k] == '/'
    ensures StripHead(head) == [] <==> head == []
    ensures StripHead(head) != [] && StripHead(head)[|StripHead(head)| - 1] == '/' ==> AllChar(StripHead(head), '/')
    ensures AllChar(head, '/') ==> StripHead(head) == head
  {
    if head != [] && !AllChar(head, '/') {
      var k :| 0 <= k < |head| && head[k] != '/';
      assert k < |RStrip(head, '/')|;
    }
  }

  /** The extension is empty or a dot followed by no other dot. */
  lemma SplitExtShape(p: string)
    ensures Split(p).ext == [] || (Split(p).ext[0] == '.' && '.' !in Split(p).ext[1..])
  {
  }

  /** The extension is non-empty exactly when the last component has a dot
      somewhere after a character that is not a dot: a name whose only dots
      lead it (`.bashrc`, `..`) has no extension. */
  lemma SplitExtPresent(p: string)
    ensures var t := LastComponent(p);
            Split(p).ext != [] <==> exists i, j :: 0 <= j < i < |t| && t[j] != '.' && t[i] == '.'
  {
    SplitUnfold(p);
    SplitExtPresentInName(LastComponent(p));
  }

  /** `splitext` of a name without `/` gives an extension exactly when a dot
      follows some character that is not a dot. */
  lemma SplitExtPresentInName(t: string)
    requires '/' !in t
    ensures SplitExt(t).1 != [] <==> exists i, j :: 0 <= j < i < |t| && t[j] != '.' && t[i] == '.'
  {
    LastIndexOfUnique(t, '/', -1);
    var d := LastIndexOf(t, '.');
    if SplitExt(t).1 != [] {
      var j :| 0 <= j < d && t[j] != '.';
      assert 0 <= j < d < |t| && t[j] != '.' && t[d] == '.';
    }
    if exists i, j :: 0 <= j < i < |t| && t[j] != '.' && t[i] == '.' {
      var i, j :| 0 <= j < i < |t| && t[j] != '.' && t[i] == '.';
      assert i <= d;
      assert HasNonDot(t, 0, d);
    }
  }

  /** No `/` in `p` is immediately followed by another. */
  predicate NoDoubledSlash(p: string) {
    forall k :: 0 <= k < |p| - 1 ==> !(p[k] == '/' && p[k + 1] == '/')
  }

  /** A name whose first character is not `/` is relative. */
  lemma RelativeName(name: string)
    requires name != [] && name[0] != '/'
    ensures !IsPrefix("/", name)
  {
    assert name[..1][0] == name[0];
  }

  /** Cutting `p` before a character that is not `/` leaves a relative tail. */
  lemma CutBeforeName(p: string, i: int)
    requires 0 <= i <= |p| && (i < |p| ==> p[i] != '/')
    ensures p == p[..i] + p[i..]
    ensures !IsPrefix("/", p[i..])
  {
    assert p == p[..i] + p[i..];
    if i < |p| {
      RelativeName(p[i..]);
    }
  }

  /** The head and tail `os.path.split` works with: the input cut just after
      its last `/`, with a tail that does not start with `/`. */
  lemma PosixSplitParts(p: string)
    ensures p == p[..LastIndexOf(p, '/') + 1] + p[LastIndexOf(p, '/') + 1..]
    ensures !IsPrefix("/", p[LastIndexOf(p, '/') + 1..])
  {
    CutBeforeName(p, LastIndexOf(p, '/') + 1);
  }

  /** `os.path.join` puts one `/` between a non-empty directory that does not
      end in `/` and a relative name. */
  lemma JoinAddsSlash(dir: string, name: string)
    requires dir != [] && dir[|dir| - 1] != '/'
    requires !IsPrefix("/", name)
    ensures Join(dir, name) == dir + "/" + name
  {
  }

  /** Stripping the trailing slashes of a head that holds something else leaves
      a non-empty string not ending in `/`; it is the head less one character
      exactly when the head ended in a single `/`. */
  lemma StripNamedHead(head: string)
    requires head != [] && head[|head| - 1] == '/' && !AllChar(head, '/')
    ensures 2 <= |head|
    ensures RStrip(head, '/') != [] && RStrip(head, '/')[|RStrip(head, '/')| - 1] != '/'
    ensures head[|head| - 2] != '/' ==> RStrip(head, '/') == head[..|head| - 1]
    ensures head[|head| - 2] == '/' ==> |RStrip(head, '/')| <= |head| - 2
  {
    var k :| 0 <= k < |head| && head[k] != '/';
    var r := RStrip(head, '/');
    assert k < |r|;
    if head[|head| - 2] != '/' {
      RStripOne(head, '/');
    }
  }

  /** Joining a relative tail to a head stripped of its trailing slashes gives
      back head and tail exactly when the head ended in a single `/`. */
  lemma JoinStrippedHead(head: string, t: string)
    requires head != [] && head[|head| - 1] == '/' && !AllChar(head, '/')
    requires !IsPrefix("/", t)
    ensures 2 <= |head|
    ensures Join(RStrip(head, '/'), t) == head + t <==> head[|head| - 2] != '/'
  {
    StripNamedHead(head);
    var r := RStrip(head, '/');
    JoinAddsSlash(r, t);
    if head[|head| - 2] != '/' {
      assert head == r + "/";
    } else {
      assert |r + "/" + t| < |head + t|;
    }
  }

  /** A head of nothing but slashes is kept whole, and joining a relative tail
      to it gives back head and tail. */
  lemma JoinSlashHead(head: string, t: string)
    requires AllChar(head, '/')
    requires !IsPrefix("/", t)
    ensures Join(StripHead(head), t) == head + t
  {
    if head != [] {
      assert head[|head| - 1..] == "/";
    }
  }

  /** Joining a relative tail to the head `os.path.split` keeps gives back head
      and tail exactly when the head is only slashes or ends in a single `/`. */
  lemma JoinStripHead(head: string, t: string)
    requires head == [] || head[|head| - 1] == '/'
    requires !IsPrefix("/", t)
    ensures Join(StripHead(head), t) == head + t <==>
            AllChar(head, '/') || (2 <= |head| && head[|head| - 2] != '/')
  {
    if AllChar(head, '/') {
      JoinSlashHead(head, t);
    } else {
      JoinStrippedHead(head, t);
    }
  }

  /** The head of `p` (everything up to its last `/`) is only slashes, or it
      ends in a single `/`. */
  predicate HeadJoinable(p: string) {
    var i := LastIndexOf(p, '/') + 1;
    AllChar(p[..i], '/') || (2 <= i && p[i - 2] != '/')
  }

  /** Exactly when `os.path.join` undoes `os.path.split`: the head is only
      slashes, or it ends in a single `/`. Two or more slashes before the last
      component, after something that is not a slash, come back as one. */
  lemma PosixSplitJoinIff(p: string)
    ensures Join(PosixSplit(p).0, PosixSplit(p).1) == p <==> HeadJoinable(p)
  {
    var i := LastIndexOf(p, '/') + 1;
    var head, t := p[..i], p[i..];
    PosixSplitParts(p);
    assert PosixSplit(p) == (StripHead(head), t);
    assert head == [] || head[i - 1] == '/';
    assert HeadJoinable(p) <==> AllChar(head, '/') || (2 <= i && head[i - 2] != '/');
    JoinStripHead(head, t);
  }

  /** `os.path.join` undoes `os.path.split` on a path with no doubled `/`. */
  lemma PosixSplitJoin(p: string)
    requires NoDoubledSlash(p)
    ensures Join(PosixSplit(p).0, PosixSplit(p).1) == p
  {
    var i := LastIndexOf(p, '/') + 1;
    if !AllChar(p[..i], '/') {
      var k :| 0 <= k < i && p[..i][k] != '/';
      assert p[i - 1] == '/' && k < i - 1;
      assert p[i - 2] != '/';
    }
    PosixSplitJoinIff(p);
  }

  /** Splitting a path with no doubled `/` and joining the parts again gives
      the path back. */
  lemma SplitJoinRoundTrip(p: string)
    requires NoDoubledSlash(p)
    ensures Join(Split(p).path, Split(p).name + Split(p).ext) == p
  {
    SplitNameExt(p);
    SplitUnfold(p);
    PosixSplitJoin(p);
  }

  /** Joining `split`'s directory part with `name + ext` gives the path back
      exactly when the part up to the last `/` is only slashes or ends in a
      single `/`. */
  lemma SplitJoinIff(p: string)
    ensures Join(Split(p).path, Split(p).name + Split(p).ext) == p <==> HeadJoinable(p)
  {
    SplitNameExt(p);
    SplitUnfold(p);
    PosixSplitJoinIff(p);
  }

  /** The last component of a name joined to a directory is the name, as long
      as the name holds no `/`: `find`'s joined entries keep their file names. */
  lemma JoinLastComponent(dir: string, name: string)
    requires '/' !in name
    ensures Split(Join(dir, name)).name + Split(Join(dir, name)).ext == name
  {
    var p := Join(dir, name);
    JoinShape(dir, name);
    assert !IsPrefix("/", name) by {
      if name != [] { assert name[0] in name; }
    }
    var prefix := p[..|p| - |name|];
    assert p == prefix + name;
    assert prefix == [] || prefix[|prefix| - 1] == '/';
    forall j | |prefix| <= j < |p|
      ensures p[j] != '/'
    {
      assert p[j] == name[j - |prefix|];
    }
    LastIndexOfUnique(p, '/', |prefix| - 1);
    SplitNameExt(p);
  }

  /** `os.path.split("/a/b/c.txt")` is `("/a/b", "c.txt")`. */
  lemma PosixSplitExample()
    ensures PosixSplit("/a/b/c.txt") == ("/a/b", "c.txt")
  {
    var p := "/a/b/c.txt";
    LastIndexOfUnique(p, '/', 4);
    assert p[..5] == "/a/b/" && p[5..] == "c.txt";
    assert "/a/b/"[1] != '/';
    RStripOne("/a/b/", '/');
    assert "/a/b/"[..4] == "/a/b";
  }

  /** `os.path.splitext("c.txt")` is `("c", ".txt")`. */
  lemma SplitExtExample()
    ensures SplitExt("c.txt") == ("c", ".txt")
  {
    LastIndexOfUnique("c.txt", '/', -1);
    LastIndexOfUnique("c.txt", '.', 1);
    assert "c.txt"[0] != '.';
    assert HasNonDot("c.txt", 0, 1);
    assert "c.txt"[..1] == "c" && "c.txt"[1..] == ".txt";
  }

  /** `split("/a/b/c.txt")` is `{'path': '/a/b', 'name': 'c', 'ext': '.txt'}`. */
  lemma SplitExample()
    ensures Split("/a/b/c.txt") == PathParts("/a/b", "c", ".txt")
  {
    PosixSplitExample();
    SplitExtExample();
  }

  /** `os.path.split("a//b")` is `("a", "b")`: both slashes go. */
  lemma PosixSplitDoubled()
    ensures PosixSplit("a//b") == ("a", "b")
  {
    var p := "a//b";
    LastIndexOfUnique(p, '/', 2);
    assert p[..3] == "a//" && p[3..] == "b";
    assert "a//"[0] != '/';
    assert "a//"[..2] == "a/";
    RStripOne("a/", '/');
    assert "a/"[..1] == "a";
  }

  /** A doubled `/` before the last component does not survive splitting and
      joining: `a//b` comes back as `a/b`. */
  lemma DoubledSlashNotKept()
    ensures Join(Split("a//b").path, Split("a//b").name + Split("a//b").ext) == "a/b"
  {
    PosixSplitDoubled();
    LastIndexOfUnique("b", '/', -1);
    LastIndexOfUnique("b", '.', -1);
    assert SplitExt("b") == ("b", []);
    RelativeName("b");
    JoinAddsSlash("a", "b");
  }
}
