/**
 * Frame selection as done by the `Trail` constructor: from the list of paths
 * that glob/directory expansion produced, keep the paths whose extension is in
 * the allow-list, sort them in code-point lexicographic order, optionally keep
 * only the first `max_images` of them, and optionally reverse the result.
 */
module Selection {

  // ---------------------------------------------------------------------------
  // Code-point lexicographic order on strings (Python's `<=` on `str`)
  // ---------------------------------------------------------------------------

  /** `a <= b` in Python: compare code points left to right; a proper prefix is smaller. */
  predicate LexLe(a: string, b: string)
    decreases |a|
  {
    if a == [] then true
    else if b == [] then false
    else if a[0] != b[0] then a[0] < b[0]
    else LexLe(a[1..], b[1..])
  }

  lemma {:induction false} LexLeReflexive(a: string)
    ensures LexLe(a, a)
    decreases |a|
  {
    if a != [] { LexLeReflexive(a[1..]); }
  }

  lemma {:induction false} LexLeAntisymmetric(a: string, b: string)
    requires LexLe(a, b) && LexLe(b, a)
    ensures a == b
    decreases |a|
  {
    if a != [] && b != [] {
      LexLeAntisymmetric(a[1..], b[1..]);
      assert a == [a[0]] + a[1..];
      assert b == [b[0]] + b[1..];
    }
  }

  lemma {:induction false} LexLeTransitive(a: string, b: string, c: string)
    requires LexLe(a, b) && LexLe(b, c)
    ensures LexLe(a, c)
    decreases |a|
  {
    if a != [] && b != [] && c != [] && a[0] == b[0] && b[0] == c[0] {
      LexLeTransitive(a[1..], b[1..], c[1..]);
    }
  }

  lemma {:induction false} LexLeTotal(a: string, b: string)
    ensures LexLe(a, b) || LexLe(b, a)
    decreases |a|
  {
    if a != [] && b != [] && a[0] == b[0] {
      LexLeTotal(a[1..], b[1..]);
    }
  }

  /** Every pair of positions, not only adjacent ones, is in order. */
  ghost predicate SortedLex(s: seq<string>) {
    forall i, j :: 0 <= i < j < |s| ==> LexLe(s[i], s[j])
  }

  /** Ordered the other way round, as after `[::-1]` of a sorted list. */
  ghost predicate SortedLexDescending(s: seq<string>) {
    forall i, j :: 0 <= i < j < |s| ==> LexLe(s[j], s[i])
  }

  // ---------------------------------------------------------------------------
  // os.path.splitext (POSIX flavour) and the filter key of trails.py line 15
  // ---------------------------------------------------------------------------

  /** Index of the last occurrence of `ch` in `s`, or -1 (Python's `str.rfind`). */
  function RFind(s: string, ch: char): (r: int)
    ensures -1 <= r < |s|
    decreases |s|
  {
    if s == [] then -1
    else if s[|s| - 1] == ch then |s| - 1
    else RFind(s[..|s| - 1], ch)
  }

  /** RFind finds an occurrence, and no occurrence lies after it. */
  lemma {:induction false} RFindIsLast(s: string, ch: char)
    ensures RFind(s, ch) >= 0 ==> s[RFind(s, ch)] == ch
    ensures forall k :: RFind(s, ch) < k < |s| ==> s[k] != ch
    decreases |s|
  {
    if s != [] && s[|s| - 1] != ch {
      var init := s[..|s| - 1];
      RFindIsLast(init, ch);
      assert forall k :: 0 <= k < |init| ==> s[k] == init[k];
    }
  }

  /** Whether `p[lo..hi]` consists of dots only. */
  predicate AllDots(p: string, lo: nat, hi: nat)
    requires hi <= |p|
    decreases hi - lo
  {
    lo >= hi || (p[lo] == '.' && AllDots(p, lo + 1, hi))
  }

  lemma {:induction false} AllDotsMeans(p: string, lo: nat, hi: nat)
    requires hi <= |p|
    ensures AllDots(p, lo, hi) <==> forall k :: lo <= k < hi ==> p[k] == '.'
    decreases hi - lo
  {
    if lo < hi {
      AllDotsMeans(p, lo + 1, hi);
    }
  }

  /**
   * Where `os.path.splitext` cuts `p`: the index of the last `.` when it lies in
   * the final path component and some character of that component before it is
   * not a `.`; otherwise |p| (no extension).
   */
  function ExtStart(p: string): (r: nat)
    ensures r <= |p|
    ensures r < |p| ==> p[r] == '.'
  {
    RFindIsLast(p, '.');
    var sep := RFind(p, '/');
    var dot := RFind(p, '.');
    if dot > sep && !AllDots(p, sep + 1, dot) then dot else |p|
  }

  /** `os.path.splitext(p)`: the root and the extension, including its dot. */
  function SplitExt(p: string): (r: (string, string))
    ensures r.0 + r.1 == p
  {
    var e := ExtStart(p);
    assert p[..e] + p[e..] == p;
    (p[..e], p[e..])
  }

  /** The extension is empty or a dot followed by characters other than `.` and `/`. */
  lemma SplitExtShape(p: string)
    ensures var ext := SplitExt(p).1;
      ext == [] || (ext[0] == '.' && '.' !in ext[1..] && '/' !in ext)
  {
    var e := ExtStart(p);
    RFindIsLast(p, '/');
    RFindIsLast(p, '.');
    if e < |p| {
      var ext, tail := p[e..], p[e + 1..];
      forall k | 0 <= k < |ext| ensures ext[k] != '/' { assert ext[k] == p[e + k]; }
      forall k | 0 <= k < |tail| ensures tail[k] != '.' { assert tail[k] == p[e + 1 + k]; }
      assert ext[1..] == tail;
    }
  }

  /**
   * The extension is non-empty exactly when the final component of `p` has a
   * `.` preceded, within that component, by some character that is not a `.`;
   * it then starts at the last `.` of `p`.
   */
  lemma SplitExtNonEmpty(p: string)
    ensures SplitExt(p).1 != [] <==>
      exists d, k :: 0 <= k < d < |p| && p[d] == '.' && p[k] != '.'
        && (forall m :: k <= m < |p| ==> p[m] != '/')
        && (forall m :: d < m < |p| ==> p[m] != '.')
  {
    var sep := RFind(p, '/');
    var dot := RFind(p, '.');
    RFindIsLast(p, '/');
    RFindIsLast(p, '.');
    if dot > sep {
      AllDotsMeans(p, sep + 1, dot);
    }
    if SplitExt(p).1 != [] {
      var k :| sep + 1 <= k < dot && p[k] != '.';
      assert 0 <= k < dot < |p| && p[dot] == '.' && p[k] != '.'
        && (forall m :: k <= m < |p| ==> p[m] != '/')
        && (forall m :: dot < m < |p| ==> p[m] != '.');
    }
  }

  /** ASCII lower-casing of one character. */
  function LowerChar(c: char): (r: char)
    ensures 'A' <= c <= 'Z' ==> 'a' <= r <= 'z' && r as int - c as int == 32
    ensures !('A' <= c <= 'Z') ==> r == c
  {
    if 'A' <= c <= 'Z' then (c as int + 32) as char else c
  }

  /** `str.lower()`, restricted to the letters A-Z. */
  function Lower(s: string): (r: string)
    ensures |r| == |s|
    ensures forall k :: 0 <= k < |s| ==> r[k] == LowerChar(s[k])
  {
    seq(|s|, k requires 0 <= k < |s| => LowerChar(s[k]))
  }

  /** `os.path.splitext(p)[1].lower()[1:]`: the extension, lower-cased, without its dot. */
  function ExtensionKey(p: string): (r: string)
    ensures |r| == if SplitExt(p).1 == [] then 0 else |SplitExt(p).1| - 1
  {
    var ext := Lower(SplitExt(p).1);
    if ext == [] then [] else ext[1..]
  }

  /** The key is the lower-cased extension after its dot, so it holds no `.` and no `/`. */
  lemma ExtensionKeySpec(p: string)
    ensures var ext, key := SplitExt(p).1, ExtensionKey(p);
      && (ext != [] ==> forall k :: 0 <= k < |key| ==> key[k] == LowerChar(ext[k + 1]))
      && '.' !in key && '/' !in key
  {
    SplitExtShape(p);
    var ext, key := SplitExt(p).1, ExtensionKey(p);
    if ext != [] {
      forall k | 0 <= k < |key| ensures key[k] == LowerChar(ext[k + 1]) && key[k] != '.' && key[k] != '/' {
        assert ext[k + 1] == ext[1..][k];
      }
    }
  }

  // ---------------------------------------------------------------------------
  // The four steps of trails.py lines 14-21
  // ---------------------------------------------------------------------------

  /** Whether `p` survives the extension filter; an empty allow-list (Python: falsy) keeps everything. */
  predicate Kept(p: string, filters: seq<string>) {
    filters == [] || ExtensionKey(p) in filters
  }

  /** `[p for p in images if keep(p)]`: the elements that pass `keep`, in their order. */
  function Filter(images: seq<string>, keep: string -> bool): (r: seq<string>)
    ensures |r| <= |images|
    decreases |images|
  {
    if images == [] then []
    else
      var rest := Filter(images[..|images| - 1], keep);
      var p := images[|images| - 1];
      if keep(p) then rest + [p] else rest
  }

  /** The list comprehension of line 15 (or the identity when there is no allow-list). */
  function FilterByExtension(images: seq<string>, filters: seq<string>): (r: seq<string>)
    ensures |r| <= |images|
    ensures filters == [] ==> r == images
  {
    FilterKeepsAllWith(images, q => Kept(q, []));
    Filter(images, p => Kept(p, filters))
  }

  /** Insert `x` into a sorted list at its place. */
  function Insert(x: string, s: seq<string>): (r: seq<string>)
    ensures multiset(r) == multiset(s) + multiset{x}
    ensures |r| == |s| + 1
    decreases |s|
  {
    if s == [] then [x]
    else if LexLe(x, s[0]) then [x] + s
    else
      assert s == [s[0]] + s[1..];
      [s[0]] + Insert(x, s[1..])
  }

  /**
   * Python's `sorted` on a list of strings. Any correct sort gives this same
   * list (see SortedPermutationUnique), so insertion order stands for Timsort.
   */
  function Sort(s: seq<string>): (r: seq<string>)
    ensures multiset(r) == multiset(s)
    ensures |r| == |s|
    decreases |s|
  {
    if s == [] then []
    else
      assert s == [s[0]] + s[1..];
      Insert(s[0], Sort(s[1..]))
  }

  /** `images[0:max_images]` when `0 < max_images <= len(images)`, lines 17-19. */
  function Truncate(images: seq<string>, maxImages: int): (r: seq<string>)
    ensures 0 < maxImages <= |images| ==> |r| == maxImages
    ensures !(0 < maxImages <= |images|) ==> |r| == |images|
    ensures r <= images
  {
    if maxImages > 0 && maxImages <= |images| then images[0..maxImages] else images
  }

  /** `images[::-1]`. */
  function Reverse(s: seq<string>): (r: seq<string>)
    ensures |r| == |s|
    ensures forall k :: 0 <= k < |s| ==> r[k] == s[|s| - 1 - k]
  {
    seq(|s|, k requires 0 <= k < |s| => s[|s| - 1 - k])
  }

  /** The list `self.images` holds after the constructor, lines 14-21. */
  function Select(expanded: seq<string>, filters: seq<string>, reverse: bool, maxImages: int): (r: seq<string>)
    ensures |r| <= |expanded|
    ensures maxImages > 0 ==> |r| <= maxImages
  {
    var sorted := Sort(FilterByExtension(expanded, filters));
    var kept := Truncate(sorted, maxImages);
    if reverse then Reverse(kept) else kept
  }

  // ---------------------------------------------------------------------------
  // Properties
  // ---------------------------------------------------------------------------

  /** A filter keeps each passing element as often as it occurs and drops every other one. */
  lemma {:induction false} FilterCountsWith(images: seq<string>, keep: string -> bool, p: string)
    ensures multiset(Filter(images, keep))[p] == if keep(p) then multiset(images)[p] else 0
    decreases |images|
  {
    if images != [] {
      var init := images[..|images| - 1];
      var last := images[|images| - 1];
      FilterCountsWith(init, keep, p);
      assert images == init + [last];
    }
  }

  /** A filter keeps the relative order of the elements it keeps. */
  lemma {:induction false} FilterKeepsOrderWith(images: seq<string>, keep: string -> bool)
    requires SortedLex(images)
    ensures SortedLex(Filter(images, keep))
    decreases |images|
  {
    if images != [] {
      var init := images[..|images| - 1];
      var last := images[|images| - 1];
      FilterKeepsOrderWith(init, keep);
      var rest := Filter(init, keep);
      forall q | q in rest ensures LexLe(q, last) {
        FilterCountsWith(init, keep, q);
        assert q in multiset(init);
        var i :| 0 <= i < |init| && init[i] == q;
      }
    }
  }

  /** A filter that passes everything is the identity. */
  lemma {:induction false} FilterKeepsAllWith(images: seq<string>, keep: string -> bool)
    requires forall p :: keep(p)
    ensures Filter(images, keep) == images
    decreases |images|
  {
    if images != [] {
      FilterKeepsAllWith(images[..|images| - 1], keep);
      assert images == images[..|images| - 1] + [images[|images| - 1]];
    }
  }

  /**
   * The extension filter keeps each matching path as often as it occurs and
   * drops every other one: a path is kept exactly when its lower-cased
   * extension, without its dot, is an element of the allow-list.
   */
  lemma FilterCounts(images: seq<string>, filters: seq<string>, p: string)
    ensures multiset(FilterByExtension(images, filters))[p]
         == if Kept(p, filters) then multiset(images)[p] else 0
  {
    FilterCountsWith(images, q => Kept(q, filters), p);
  }

  /** A path is in the filtered list exactly when it is in the input and passes the filter. */
  lemma FilterMembership(images: seq<string>, filters: seq<string>, p: string)
    ensures p in FilterByExtension(images, filters) <==> p in images && Kept(p, filters)
  {
    FilterCounts(images, filters, p);
    assert p in multiset(images) <==> p in images;
    assert p in multiset(FilterByExtension(images, filters)) <==> p in FilterByExtension(images, filters);
  }

  /**
   * Filtering and sorting commute: the comprehension keeps the relative order
   * of what it keeps, so filtering the sorted list gives the list that
   * filtering first and sorting after does.
   */
  lemma FilterThenSort(images: seq<string>, filters: seq<string>)
    ensures Sort(FilterByExtension(images, filters)) == FilterByExtension(Sort(images), filters)
  {
    var f := FilterByExtension(images, filters);
    var g := FilterByExtension(Sort(images), filters);
    SortIsSortedPermutation(images);
    FilterKeepsOrderWith(Sort(images), q => Kept(q, filters));
    forall p ensures multiset(g)[p] == multiset(f)[p] {
      FilterCounts(images, filters, p);
      FilterCounts(Sort(images), filters, p);
    }
    assert multiset(g) == multiset(f);
    SortIsTheSortedPermutation(f, g);
  }

  /** With no allow-list (`None` or `[]` in Python), the filter is the identity. */
  lemma NoFilterKeepsAll(images: seq<string>)
    ensures FilterByExtension(images, []) == images
  {
    FilterKeepsAllWith(images, q => Kept(q, []));
  }

  /** Every element of `Insert(x, s)` is `x` or an element of `s`. */
  lemma InsertElements(x: string, s: seq<string>, k: nat)
    requires k < |Insert(x, s)|
    ensures Insert(x, s)[k] == x || Insert(x, s)[k] in s
  {
    var r := Insert(x, s);
    assert r[k] in multiset(r);
  }

  /** A sorted list stays sorted when an element no larger than each of its elements goes in front. */
  lemma PrependSorted(x: string, s: seq<string>)
    requires SortedLex(s)
    requires forall k :: 0 <= k < |s| ==> LexLe(x, s[k])
    ensures SortedLex([x] + s)
  {
    var r := [x] + s;
    forall i, j | 0 <= i < j < |r| ensures LexLe(r[i], r[j]) {
      assert r[j] == s[j - 1];
      if i > 0 { assert r[i] == s[i - 1]; }
    }
  }

  lemma {:induction false} InsertSorted(x: string, s: seq<string>)
    requires SortedLex(s)
    ensures SortedLex(Insert(x, s))
    decreases |s|
  {
    if s == [] {
    } else if LexLe(x, s[0]) {
      forall k | 0 <= k < |s| ensures LexLe(x, s[k]) {
        if k > 0 { LexLeTransitive(x, s[0], s[k]); }
      }
      PrependSorted(x, s);
    } else {
      var tail := Insert(x, s[1..]);
      InsertSorted(x, s[1..]);
      LexLeTotal(x, s[0]);
      forall k | 0 <= k < |tail| ensures LexLe(s[0], tail[k]) {
        InsertElements(x, s[1..], k);
        if tail[k] != x {
          var j :| 0 <= j < |s[1..]| && s[1..][j] == tail[k];
          assert s[1 + j] == tail[k];
        }
      }
      PrependSorted(s[0], tail);
    }
  }

  /** `sorted` returns a sorted permutation of its argument. */
  lemma {:induction false} SortIsSortedPermutation(s: seq<string>)
    ensures SortedLex(Sort(s))
    ensures multiset(Sort(s)) == multiset(s)
    decreases |s|
  {
    if s != [] {
      SortIsSortedPermutation(s[1..]);
      InsertSorted(s[0], Sort(s[1..]));
    }
  }

  /** Two sorted lists with the same elements start with the same element. */
  lemma SortedHeadsEqual(a: seq<string>, b: seq<string>)
    requires SortedLex(a) && SortedLex(b)
    requires multiset(a) == multiset(b) && a != []
    ensures b != [] && a[0] == b[0]
  {
    assert a[0] in multiset(b);
    assert b[0] in multiset(a);
    var i :| 0 <= i < |b| && b[i] == a[0];
    var j :| 0 <= j < |a| && a[j] == b[0];
    assert LexLe(b[0], b[i]) by { if i > 0 {} else { LexLeReflexive(b[0]); } }
    assert LexLe(a[0], a[j]) by { if j > 0 {} else { LexLeReflexive(a[0]); } }
    LexLeAntisymmetric(a[0], b[0]);
  }

  /**
   * Under a total order there is only one sorted permutation of a list, so the
   * choice of sorting algorithm cannot change the selection.
   */
  lemma {:induction false} SortedPermutationUnique(a: seq<string>, b: seq<string>)
    requires SortedLex(a) && SortedLex(b)
    requires multiset(a) == multiset(b)
    ensures a == b
    decreases |a|
  {
    if a != [] {
      SortedHeadsEqual(a, b);
      assert a == [a[0]] + a[1..];
      assert b == [b[0]] + b[1..];
      assert multiset(a[1..]) == multiset(a) - multiset{a[0]};
      assert multiset(b[1..]) == multiset(b) - multiset{b[0]};
      SortedPermutationUnique(a[1..], b[1..]);
    } else {
      assert |b| == |multiset(b)| == 0;
    }
  }

  /** Any sorted permutation of the filtered list is exactly what `sorted` returns. */
  lemma SortIsTheSortedPermutation(s: seq<string>, t: seq<string>)
    requires SortedLex(t) && multiset(t) == multiset(s)
    ensures Sort(s) == t
  {
    SortIsSortedPermutation(s);
    SortedPermutationUnique(Sort(s), t);
  }

  /** Reversing twice gives the list back, and reversing keeps the elements. */
  lemma ReverseInvolution(s: seq<string>)
    ensures Reverse(Reverse(s)) == s
    ensures multiset(Reverse(s)) == multiset(s)
  {
    ReverseMultiset(s);
  }

  lemma {:induction false} ReverseMultiset(s: seq<string>)
    ensures multiset(Reverse(s)) == multiset(s)
    decreases |s|
  {
    if s != [] {
      var t := s[1..];
      ReverseMultiset(t);
      assert Reverse(s) == Reverse(t) + [s[0]];
      assert s == [s[0]] + t;
    }
  }

  /** A reversed ascending list is descending. */
  lemma {:induction false} ReverseOfSorted(s: seq<string>)
    requires SortedLex(s)
    ensures SortedLexDescending(Reverse(s))
  {
    var r := Reverse(s);
    forall i, j | 0 <= i < j < |r| ensures LexLe(r[j], r[i]) {
      assert r[j] == s[|s| - 1 - j] && r[i] == s[|s| - 1 - i];
    }
  }

  /**
   * The whole selection: the sorted filtered list cut to its first `maxImages`
   * entries when `0 < maxImages <= n`, otherwise the whole of it; reversed when
   * asked. Every selected path passes the filter, and without truncation no
   * path that passes the filter is lost.
   */
  lemma SelectSpec(expanded: seq<string>, filters: seq<string>, reverse: bool, maxImages: int)
    ensures var f := FilterByExtension(expanded, filters);
            var s := Select(expanded, filters, reverse, maxImages);
            var n := if 0 < maxImages <= |f| then maxImages else |f|;
            && |s| == n
            && (forall p :: p in s ==> p in expanded && Kept(p, filters))
            && (!reverse ==> SortedLex(s) && s == Sort(f)[..n])
            && (reverse ==> SortedLexDescending(s) && s == Reverse(Sort(f)[..n]))
            && (n == |f| ==> multiset(s) == multiset(f))
  {
    var f := FilterByExtension(expanded, filters);
    var sorted := Sort(f);
    SortIsSortedPermutation(f);
    var kept := Truncate(sorted, maxImages);
    var n := if 0 < maxImages <= |f| then maxImages else |f|;
    assert kept == sorted[..n];
    assert SortedLex(kept);
    forall p | p in kept ensures p in f && p in expanded && Kept(p, filters) {
      assert p in multiset(sorted);
      FilterMembership(expanded, filters, p);
    }
    if n == |f| {
      assert kept == sorted;
      assert multiset(kept) == multiset(f);
    }
    if reverse {
      ReverseOfSorted(kept);
      ReverseMultiset(kept);
      assert multiset(Reverse(kept)) == multiset(kept);
      forall p | p in Reverse(kept) ensures p in kept {
        assert p in multiset(Reverse(kept));
      }
    }
  }

  /** In `name.ext` (no `.` or `/` in either part, name not empty) `splitext` cuts at the dot. */
  lemma ExtStartOfPlainName(name: string, ext: string)
    requires name != [] && '.' !in name && '/' !in name
    requires '.' !in ext && '/' !in ext
    ensures ExtStart(name + "." + ext) == |name|
  {
    var p := name + "." + ext;
    var d := |name|;
    assert forall k :: 0 <= k < d ==> p[k] == name[k];
    assert forall k :: d < k < |p| ==> p[k] == ext[k - d - 1];
    assert p[d] == '.';
    RFindIsLast(p, '/');
    RFindIsLast(p, '.');
    assert RFind(p, '/') == -1;
    assert RFind(p, '.') == d;
    assert p[0] != '.';
  }

  /**
   * `name.ext`, where neither part contains `.` or `/` and the name is not
   * empty, has key `ext` lower-cased: `os.path.splitext("IMG_01.JPG")[1].lower()[1:] == "jpg"`.
   */
  lemma KeyOfPlainName(name: string, ext: string)
    requires name != [] && '.' !in name && '/' !in name
    requires '.' !in ext && '/' !in ext
    ensures ExtensionKey(name + "." + ext) == Lower(ext)
  {
    var p := name + "." + ext;
    var d := |name|;
    ExtStartOfPlainName(name, ext);
    var dotted := SplitExt(p).1;
    assert dotted == p[d..];
    assert dotted == "." + ext;
    var key := ExtensionKey(p);
    forall k | 0 <= k < |ext| ensures key[k] == Lower(ext)[k] {
      assert dotted[k + 1] == ext[k];
    }
  }

  /** For a plain `name.ext`, the filter's verdict depends on the lower-cased extension alone. */
  lemma PlainNameKept(name: string, ext: string, filters: seq<string>)
    requires name != [] && '.' !in name && '/' !in name
    requires '.' !in ext && '/' !in ext
    ensures Kept(name + "." + ext, filters) <==> filters == [] || Lower(ext) in filters
  {
    KeyOfPlainName(name, ext);
  }
}
