/**
 * The institute registry (GRID) and the two lookups `get_match` makes in it:
 * rapidfuzz's `extractOne` over the pool's names, and pandas' selection of the
 * first pool row carrying the winning name.
 */
module Registry {
  import opened Wrappers
  import opened Frame
  import opened Levenshtein

  /** One row of the registry: GRID id, institute name, country. */
  datatype Institute = Institute(gridId: string, name: string, country: string)

  /** `registry[registry['country'] == c]`: the rows whose country equals the cell, in registry order. */
  function RowsIn(registry: seq<Institute>, c: Cell): (pool: seq<Institute>)
    ensures |pool| <= |registry|
    ensures forall x :: x in pool <==> x in registry && c == Str(x.country)
  {
    if registry == [] then []
    else (if c == Str(registry[0].country) then [registry[0]] else []) + RowsIn(registry[1..], c)
  }

  /** Filtering a concatenation filters each part, in order. */
  lemma {:induction false} RowsInAppend(a: seq<Institute>, b: seq<Institute>, c: Cell)
    ensures RowsIn(a + b, c) == RowsIn(a, c) + RowsIn(b, c)
    decreases |a|
  {
    if a == [] {
      assert a + b == b;
    } else {
      assert (a + b)[0] == a[0];
      assert (a + b)[1..] == a[1..] + b;
      RowsInAppend(a[1..], b, c);
    }
  }

  /** One row is kept exactly when its country equals the cell. */
  lemma RowsInSingle(x: Institute, c: Cell)
    ensures RowsIn([x], c) == if c == Str(x.country) then [x] else []
  {
  }

  /**
   * The first row named `n` in the registry restricted to country `c` is the
   * first registry row that has both country `c` and name `n`.
   */
  lemma {:induction false} FirstInPool(registry: seq<Institute>, c: Cell, n: string)
    requires FirstNamed(RowsIn(registry, c), n).Some?
    ensures var pool := RowsIn(registry, c);
      exists k :: && 0 <= k < |registry| && registry[k] == pool[FirstNamed(pool, n).value]
                  && c == Str(registry[k].country) && registry[k].name == n
                  && forall j :: 0 <= j < k ==> c != Str(registry[j].country) || registry[j].name != n
    decreases |registry|
  {
    var head := registry[0];
    if c == Str(head.country) && head.name == n {
      PoolHead(registry, c, n);
    } else {
      PoolTail(registry, c, n);
      FirstInPool(registry[1..], c, n);
      FirstShift(registry, c, n, RowsIn(registry, c)[FirstNamed(RowsIn(registry, c), n).value]);
    }
  }

  lemma PoolHead(registry: seq<Institute>, c: Cell, n: string)
    requires registry != [] && c == Str(registry[0].country) && registry[0].name == n
    ensures var pool := RowsIn(registry, c);
      FirstNamed(pool, n) == Some(0) && pool[0] == registry[0]
  {
    var pool := RowsIn(registry, c);
    assert pool[0] == registry[0];
  }

  lemma PoolTail(registry: seq<Institute>, c: Cell, n: string)
    requires registry != [] && !(c == Str(registry[0].country) && registry[0].name == n)
    requires FirstNamed(RowsIn(registry, c), n).Some?
    ensures var pool := RowsIn(registry, c); var tail := RowsIn(registry[1..], c);
      FirstNamed(tail, n).Some? && pool[FirstNamed(pool, n).value] == tail[FirstNamed(tail, n).value]
  {
    var pool := RowsIn(registry, c);
    var tail := RowsIn(registry[1..], c);
    if c == Str(registry[0].country) {
      assert pool == [registry[0]] + tail;
      assert pool[1..] == tail;
    } else {
      assert pool == tail;
    }
  }

  /** A first matching row of the registry's tail, not matched by the head, is the first of the registry. */
  lemma FirstShift(registry: seq<Institute>, c: Cell, n: string, x: Institute)
    requires registry != [] && !(c == Str(registry[0].country) && registry[0].name == n)
    requires exists k :: && 0 <= k < |registry[1..]| && registry[1..][k] == x
                         && c == Str(registry[1..][k].country) && registry[1..][k].name == n
                         && forall j :: 0 <= j < k ==> c != Str(registry[1..][j].country) || registry[1..][j].name != n
    ensures exists k :: && 0 <= k < |registry| && registry[k] == x
                        && c == Str(registry[k].country) && registry[k].name == n
                        && forall j :: 0 <= j < k ==> c != Str(registry[j].country) || registry[j].name != n
  {
    var rest := registry[1..];
    var k :| && 0 <= k < |rest| && rest[k] == x && c == Str(rest[k].country) && rest[k].name == n
             && forall j :: 0 <= j < k ==> c != Str(rest[j].country) || rest[j].name != n;
    assert registry[k + 1] == x;
    forall j | 0 <= j < k + 1 ensures c != Str(registry[j].country) || registry[j].name != n {
      if j > 0 {
        assert registry[j] == rest[j - 1];
      }
    }
  }

  /** The `name` column of a pool. */
  function Names(pool: seq<Institute>): (names: seq<string>)
    ensures |names| == |pool|
    ensures forall k :: 0 <= k < |pool| ==> names[k] == pool[k].name
  {
    seq(|pool|, k requires 0 <= k < |pool| => pool[k].name)
  }

  /**
   * `extractOne(query, names, scorer=normalized_similarity, score_cutoff=0.9)`:
   * the position of the first name with the highest score, provided that score
   * reaches the cutoff.
   */
  function ExtractOne(query: string, names: seq<string>): (r: Option<nat>)
    ensures r.Some? ==> r.value < |names| && Accepts(query, names[r.value])
    ensures r.Some? ==> forall j :: 0 <= j < |names| ==> Similarity(query, names[j]) <= Similarity(query, names[r.value])
    ensures r.Some? ==> forall j :: 0 <= j < r.value ==> Similarity(query, names[j]) < Similarity(query, names[r.value])
    ensures r.None? <==> forall j :: 0 <= j < |names| ==> !Accepts(query, names[j])
  {
    if names == [] then None
    else
      var rest := ExtractOne(query, names[1..]);
      if Accepts(query, names[0]) && (rest.None? || Similarity(query, names[0]) >= Similarity(query, names[1..][rest.value])) then
        Some(0)
      else if rest.Some? then
        Some(rest.value + 1)
      else
        None
  }

  /** The position of the first pool row whose name is `name`. */
  function FirstNamed(pool: seq<Institute>, name: string): (r: Option<nat>)
    ensures r.Some? ==> r.value < |pool| && pool[r.value].name == name
    ensures r.Some? ==> forall j :: 0 <= j < r.value ==> pool[j].name != name
    ensures r.None? <==> forall j :: 0 <= j < |pool| ==> pool[j].name != name
  {
    if pool == [] then None
    else if pool[0].name == name then Some(0)
    else match FirstNamed(pool[1..], name)
      case None => None
      case Some(k) => Some(k + 1)
  }
}
