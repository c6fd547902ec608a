/**
 * The insertion-ordered Python dict that maps a subreddit name to its list of
 * posts, as a sequence of (name, posts) sections. A dict has distinct keys, so
 * the mappings that matter satisfy `DistinctNames`; every transform below keeps it.
 */
module OrderedDict {
  import opened Builtins
  import opened Lists

  datatype Section<T> = Section(name: string, posts: seq<T>)

  type Dict<T> = seq<Section<T>>

  function SectionName<T>(s: Section<T>): string
  {
    s.name
  }

  /** `list(d.keys())`. */
  function Names<T>(d: Dict<T>): seq<string>
  {
    Map(d, SectionName)
  }

  predicate DistinctNames<T>(d: Dict<T>)
  {
    forall i, j :: 0 <= i < j < |d| ==> d[i].name != d[j].name
  }

  /**
   * `d.get(name)`. Scanning from the end gives the value of the LAST assignment
   * to `name`, which is what a dict built by assignments holds.
   */
  function Get<T>(d: Dict<T>, name: string): (r: Option<seq<T>>)
    ensures r.None? <==> name !in Names(d)
  {
    if |d| == 0 then None
    else if d[|d| - 1].name == name then Some(d[|d| - 1].posts)
    else
      assert Names(d) == Names(d[..|d| - 1]) + [d[|d| - 1].name];
      Get(d[..|d| - 1], name)
  }

  /** `sum(len(posts) for posts in d.values())`. */
  function TotalPosts<T>(d: Dict<T>): (n: nat)
    ensures d == [] ==> n == 0
  {
    if |d| == 0 then 0 else TotalPosts(d[..|d| - 1]) + |d[|d| - 1].posts|
  }

  /**
   * The loop `for name, posts in d.items(): ps = f(posts); if ps: out[name] = ps`
   * shared by cleaning and filtering: transform every section, keep the
   * non-empty results, in input order.
   */
  function MapNonEmpty<A, B>(d: Dict<A>, f: seq<A> -> seq<B>): (r: Dict<B>)
    ensures |r| <= |d|
    ensures forall k :: 0 <= k < |r| ==> r[k].posts != []
  {
    if |d| == 0 then []
    else
      var init := d[..|d| - 1];
      var last := d[|d| - 1];
      var ps := f(last.posts);
      MapNonEmpty(init, f) + (if ps == [] then [] else [Section(last.name, ps)])
  }

  /**
   * The loop `for name, posts in d.items(): out[name] = f(posts)` of display
   * formatting: transform every section and keep all of them.
   */
  function MapAll<A, B>(d: Dict<A>, f: seq<A> -> seq<B>): (r: Dict<B>)
    ensures |r| == |d|
    ensures forall k :: 0 <= k < |d| ==> r[k].name == d[k].name && r[k].posts == f(d[k].posts)
  {
    if |d| == 0 then [] else MapAll(d[..|d| - 1], f) + [Section(d[|d| - 1].name, f(d[|d| - 1].posts))]
  }

  lemma NamesAppend<T>(a: Dict<T>, s: Section<T>)
    ensures Names(a + [s]) == Names(a) + [s.name]
  {
    MapAppend(a, [s], SectionName);
  }

  lemma DistinctNamesInit<T>(d: Dict<T>)
    requires |d| > 0 && DistinctNames(d)
    ensures DistinctNames(d[..|d| - 1])
    ensures d[|d| - 1].name !in Names(d[..|d| - 1])
  {
  }

  /**
   * Dropping empty sections as dict assignments do: under distinct keys, `out[name]`
   * is `f(d[name])` when that is non-empty and absent otherwise.
   */
  lemma {:induction false} MapNonEmptyGet<A, B>(d: Dict<A>, f: seq<A> -> seq<B>, name: string)
    requires DistinctNames(d)
    ensures Get(MapNonEmpty(d, f), name) ==
            match Get(d, name)
            case None => None
            case Some(ps) => if f(ps) == [] then None else Some(f(ps))
  {
    if |d| > 0 {
      var init := d[..|d| - 1];
      var last := d[|d| - 1];
      DistinctNamesInit(d);
      MapNonEmptyGet(init, f, name);
      var r := MapNonEmpty(d, f);
      var ri := MapNonEmpty(init, f);
      if f(last.posts) != [] {
        assert r[..|r| - 1] == ri;
      } else {
        assert r == ri;
        if last.name == name {
          assert Get(init, name).None?;
        }
      }
    }
  }

  /** The kept names are a subsequence of the input's names. */
  lemma {:induction false} MapNonEmptyNames<A, B>(d: Dict<A>, f: seq<A> -> seq<B>)
    ensures IsSubsequence(Names(MapNonEmpty(d, f)), Names(d))
  {
    if |d| > 0 {
      var init := d[..|d| - 1];
      var last := d[|d| - 1];
      var ri := MapNonEmpty(init, f);
      MapNonEmptyNames(init, f);
      assert Names(d) == Names(init) + [last.name];
      SubsequenceSnoc(Names(ri), Names(init), last.name);
      if f(last.posts) != [] {
        var s := Section(last.name, f(last.posts));
        NamesAppend(ri, s);
        assert MapNonEmpty(d, f) == ri + [s];
      } else {
        assert MapNonEmpty(d, f) == ri;
      }
    }
  }

  /** Keys that were distinct stay distinct. */
  lemma MapNonEmptyDistinct<A, B>(d: Dict<A>, f: seq<A> -> seq<B>)
    requires DistinctNames(d)
    ensures DistinctNames(MapNonEmpty(d, f))
  {
    var r := MapNonEmpty(d, f);
    forall i, j | 0 <= i < j < |r|
      ensures r[i].name != r[j].name
    {
      MapNonEmptyOrder(d, f, i, j);
    }
  }

  /** Surviving sections keep their relative order: section `i` before `j` came from earlier input. */
  lemma {:induction false} MapNonEmptyOrder<A, B>(d: Dict<A>, f: seq<A> -> seq<B>, i: nat, j: nat)
    requires i < j < |MapNonEmpty(d, f)|
    ensures exists a, b :: 0 <= a < b < |d| && d[a].name == MapNonEmpty(d, f)[i].name
                           && d[b].name == MapNonEmpty(d, f)[j].name
  {
    var init := d[..|d| - 1];
    var ri := MapNonEmpty(init, f);
    var r := MapNonEmpty(d, f);
    if j < |ri| {
      assert r[i] == ri[i] && r[j] == ri[j];
      MapNonEmptyOrder(init, f, i, j);
      var a, b :| 0 <= a < b < |init| && init[a].name == ri[i].name && init[b].name == ri[j].name;
      assert d[a] == init[a] && d[b] == init[b];
    } else {
      assert r[i] == ri[i];
      MapNonEmptyOrigin(init, f, i);
      var a :| 0 <= a < |init| && init[a].name == ri[i].name && f(init[a].posts) == ri[i].posts;
      assert d[a] == init[a];
      assert r[j].name == d[|d| - 1].name;
    }
  }

  /** A section that survives came from an input section with the same name. */
  lemma {:induction false} MapNonEmptyOrigin<A, B>(d: Dict<A>, f: seq<A> -> seq<B>, k: nat)
    requires k < |MapNonEmpty(d, f)|
    ensures exists j :: 0 <= j < |d| && d[j].name == MapNonEmpty(d, f)[k].name
                        && f(d[j].posts) == MapNonEmpty(d, f)[k].posts
  {
    var init := d[..|d| - 1];
    var ri := MapNonEmpty(init, f);
    if k < |ri| {
      MapNonEmptyOrigin(init, f, k);
      var j :| 0 <= j < |init| && init[j].name == ri[k].name && f(init[j].posts) == ri[k].posts;
      assert d[j] == init[j];
    } else {
      assert d[|d| - 1].name == MapNonEmpty(d, f)[k].name;
    }
  }

  /** Transforming every section keeps the keys, so it keeps them distinct. */
  lemma MapAllNames<A, B>(d: Dict<A>, f: seq<A> -> seq<B>)
    ensures Names(MapAll(d, f)) == Names(d)
    ensures DistinctNames(d) ==> DistinctNames(MapAll(d, f))
  {
  }

  /** If no section grows, the total number of posts does not grow. */
  lemma {:induction false} MapNonEmptyTotal<A, B>(d: Dict<A>, f: seq<A> -> seq<B>)
    requires forall k :: 0 <= k < |d| ==> |f(d[k].posts)| <= |d[k].posts|
    ensures TotalPosts(MapNonEmpty(d, f)) <= TotalPosts(d)
  {
    if |d| > 0 {
      var init := d[..|d| - 1];
      var ri := MapNonEmpty(init, f);
      assert forall k :: 0 <= k < |init| ==> init[k] == d[k];
      MapNonEmptyTotal(init, f);
      var ps := f(d[|d| - 1].posts);
      assert |ps| <= |d[|d| - 1].posts|;
      var r := MapNonEmpty(d, f);
      if ps != [] {
        assert r == ri + [Section(d[|d| - 1].name, ps)];
        assert r[..|r| - 1] == ri;
        assert TotalPosts(r) == TotalPosts(ri) + |ps|;
      } else {
        assert r == ri;
      }
    }
  }

  /** If every section keeps its length, so does the total. */
  lemma {:induction false} MapAllTotal<A, B>(d: Dict<A>, f: seq<A> -> seq<B>)
    requires forall k :: 0 <= k < |d| ==> |f(d[k].posts)| == |d[k].posts|
    ensures TotalPosts(MapAll(d, f)) == TotalPosts(d)
  {
    if |d| > 0 {
      var init := d[..|d| - 1];
      MapAllTotal(init, f);
      var r := MapAll(d, f);
      assert r[..|r| - 1] == MapAll(init, f);
    }
  }

  /** Applying twice a per-section transform that is itself idempotent changes nothing. */
  lemma {:induction false} MapNonEmptyIdempotent<A>(d: Dict<A>, f: seq<A> -> seq<A>)
    requires forall ps :: f(f(ps)) == f(ps)
    ensures MapNonEmpty(MapNonEmpty(d, f), f) == MapNonEmpty(d, f)
  {
    if |d| > 0 {
      var init := d[..|d| - 1];
      var ri := MapNonEmpty(init, f);
      MapNonEmptyIdempotent(init, f);
      var ps := f(d[|d| - 1].posts);
      if ps != [] {
        var r := ri + [Section(d[|d| - 1].name, ps)];
        assert MapNonEmpty(d, f) == r;
        assert r[..|r| - 1] == ri;
        assert f(ps) == ps;
        assert MapNonEmpty(r, f) == MapNonEmpty(ri, f) + [Section(d[|d| - 1].name, ps)];
      } else {
        assert MapNonEmpty(d, f) == ri;
      }
    }
  }

  /**
   * Re-applying a cleaning-like transform `h` after re-encoding every section with `g`
   * gives the mapping back when `h` undoes `g` on each (non-empty) section.
   */
  lemma {:induction false} MapNonEmptyAfterMapAll<A, B>(x: Dict<A>, g: seq<A> -> seq<B>, h: seq<B> -> seq<A>)
    requires forall k :: 0 <= k < |x| ==> x[k].posts != [] && h(g(x[k].posts)) == x[k].posts
    ensures MapNonEmpty(MapAll(x, g), h) == x
  {
    if |x| > 0 {
      var init := x[..|x| - 1];
      assert forall k :: 0 <= k < |init| ==> init[k] == x[k];
      MapNonEmptyAfterMapAll(init, g, h);
      var last := x[|x| - 1];
      var m := MapAll(x, g);
      assert m[..|m| - 1] == MapAll(init, g);
      assert m[|m| - 1] == Section(last.name, g(last.posts));
      assert h(g(last.posts)) == last.posts;
      assert MapNonEmpty(m, h) == MapNonEmpty(MapAll(init, g), h) + [Section(last.name, last.posts)];
      assert x == init + [last];
    }
  }
}
