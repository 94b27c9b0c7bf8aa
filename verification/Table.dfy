/** The hash table behind a JSON object: open addressing with linear probing, a 7/10 load limit, doubling
    rehash, swap-with-last item storage and backward-shift deletion. */
module ObjectTable {
  import opened Options
  import opened Json

  const EMPTY: int := -1
  const STARTING_CAPACITY: nat := 16

  // ---------------------------------------------------------------- masks

  /** `x & y`, bit by bit. */
  function BitAnd(x: nat, y: nat): nat {
    if x == 0 || y == 0 then 0 else (x % 2) * (y % 2) + 2 * BitAnd(x / 2, y / 2)
  }

  predicate PowerOfTwo(n: nat) {
    n == 1 || (n >= 2 && n % 2 == 0 && PowerOfTwo(n / 2))
  }

  /** The table masks with `capacity - 1` where it means the remainder. */
  lemma {:induction false} MaskIsRemainder(x: nat, n: nat)
    requires PowerOfTwo(n)
    ensures BitAnd(x, n - 1) == x % n
    decreases n
  {
    if n > 1 {
      var m := n / 2;
      assert n == 2 * m && PowerOfTwo(m);
      MaskIsRemainder(x / 2, m);
      MaskStep(x, m);
    }
  }

  lemma MaskStep(x: nat, m: nat)
    requires m > 0 && BitAnd(x / 2, m - 1) == (x / 2) % m
    ensures BitAnd(x, 2 * m - 1) == x % (2 * m)
  {
    hide BitAnd;
    HalfRemainder(x, m);
    OddHalf(m);
    OddMask(x, 2 * m - 1);
  }

  lemma OddHalf(m: nat)
    requires m > 0
    ensures (2 * m - 1) % 2 == 1 && (2 * m - 1) / 2 == m - 1
  {
  }

  lemma OddMask(x: nat, y: nat)
    requires y % 2 == 1
    ensures BitAnd(x, y) == x % 2 + 2 * BitAnd(x / 2, y / 2)
  {
  }

  lemma DoublePower(n: nat)
    ensures PowerOfTwo(n) ==> PowerOfTwo(2 * n)
    ensures PowerOfTwo(STARTING_CAPACITY)
  {
    assert PowerOfTwo(2) && PowerOfTwo(4) && PowerOfTwo(8);
  }

  lemma HalfRemainder(x: nat, m: nat)
    requires m > 0
    ensures x % (2 * m) == x % 2 + 2 * ((x / 2) % m)
  {
    var q, r := (x / 2) / m, (x / 2) % m;
    assert x == q * (2 * m) + (2 * r + x % 2);
    RemainderUnique(x, 2 * m, q, 2 * r + x % 2);
  }

  lemma RemainderUnique(x: nat, d: nat, q: nat, r: nat)
    requires r < d && x == q * d + r
    ensures x % d == r
  {
    assert (x / d - q) * d == r - x % d;
    SmallMultiple(x / d - q, d);
  }

  lemma SmallMultiple(k: int, d: nat)
    requires d > 0 && 0 - d < k * d < d
    ensures k == 0
  {
  }

  /** hash_string on 64-bit words: `hash * 33 + c` for each character before a NUL. */
  function HashString(name: string): nat {
    HashFrom(name, 0, 5381)
  }

  function HashFrom(name: string, i: nat, hash: nat): nat
    decreases |name| - i
  {
    if i >= |name| || name[i] == '\0' then hash
    else HashFrom(name, i + 1, (hash * 33 + name[i] as int) % 0x1_0000_0000_0000_0000)
  }

  // ---------------------------------------------------------------- layout

  /** Cell `k` is probed before cell `to` when probing starts at cell `from` and wraps around. */
  predicate Before(from: int, k: int, to: int) {
    if from <= to then from <= k < to else k >= from || k < to
  }

  /** Cell `c` lies in the wrapped interval that starts just after `from` and ends at `to`. */
  predicate Passed(from: int, c: int, to: int) {
    if from <= to then from < c <= to else c > from || c <= to
  }

  function Next(c: nat, cap: nat): nat
    requires c < cap
  {
    if c + 1 == cap then 0 else c + 1
  }

  /** The cell where the probe for each item starts. */
  function Homes(hashes: seq<nat>, cap: nat): (homes: seq<nat>)
    requires cap > 0
    ensures |homes| == |hashes|
  {
    seq(|hashes|, m requires 0 <= m < |hashes| => hashes[m] % cap)
  }

  ghost predicate Distinct(names: seq<string>) {
    forall i, j :: 0 <= i < j < |names| ==> names[i] != names[j]
  }

  /** Names and hashes are in step with each other and with the hash function. */
  ghost predicate InStep(hash: string -> nat, names: seq<string>, hashes: seq<nat>) {
    && |names| == |hashes|
    && Distinct(names)
    && forall m :: 0 <= m < |names| ==> hashes[m] == hash(names[m])
  }

  /** `cells` and `cellIxs` are inverse to each other, away from the cell `hole`. */
  ghost predicate Inverse(cells: seq<int>, cellIxs: seq<int>, hole: int) {
    && (forall m :: 0 <= m < |cellIxs| ==> 0 <= cellIxs[m] < |cells| && cellIxs[m] != hole && cells[cellIxs[m]] == m)
    && (forall c :: 0 <= c < |cells| && c != hole && cells[c] != EMPTY ==>
          0 <= cells[c] < |cellIxs| && cellIxs[cells[c]] == c)
  }

  /** No empty cell lies on the probe path of any item. */
  ghost predicate Reachable(cells: seq<int>, homes: seq<nat>, cellIxs: seq<int>)
    requires |homes| == |cellIxs|
  {
    forall m, k {:trigger Before(homes[m], k, cellIxs[m])} ::
      0 <= m < |cellIxs| && 0 <= k < |cells| && Before(homes[m], k, cellIxs[m]) ==> cells[k] != EMPTY
  }

  ghost predicate Layout(cells: seq<int>, homes: seq<nat>, cellIxs: seq<int>) {
    && |homes| == |cellIxs|
    && (forall m :: 0 <= m < |homes| ==> homes[m] < |cells|)
    && Inverse(cells, cellIxs, -1)
    && Reachable(cells, homes, cellIxs)
  }

  lemma {:induction false} ElementCount(s: seq<int>)
    ensures |set x | x in s| <= |s|
  {
    if s == [] {
      assert (set x | x in s) == {};
    } else {
      ElementCount(s[1..]);
      assert (set x | x in s) == (set x | x in s[1..]) + {s[0]};
    }
  }

  function Range(n: nat): (r: set<int>)
    ensures |r| == n
    ensures forall x :: x in r <==> 0 <= x < n
  {
    if n == 0 then {} else Range(n - 1) + {n - 1}
  }

  lemma SubsetCount(a: set<int>, b: set<int>)
    requires a <= b
    ensures |a| <= |b|
  {
    assert b == a + (b - a);
  }

  /** A table with fewer items than cells has an empty cell. */
  lemma EmptyCellExists(cells: seq<int>, cellIxs: seq<int>) returns (e: nat)
    requires Inverse(cells, cellIxs, -1)
    requires |cellIxs| < |cells|
    ensures e < |cells| && cells[e] == EMPTY
  {
    if forall c :: 0 <= c < |cells| ==> cells[c] != EMPTY {
      forall c | c in Range(|cells|) ensures c in (set x | x in cellIxs) {
        assert cellIxs[cells[c]] == c;
      }
      ElementCount(cellIxs);
      SubsetCount(Range(|cells|), set x | x in cellIxs);
      assert false;
    }
    e :| e < |cells| && cells[e] == EMPTY;
  }

  /** Storing a new item in the empty cell where its probe stopped keeps the layout. */
  lemma LayoutInsert(cells: seq<int>, homes: seq<nat>, cellIxs: seq<int>, home: nat, c: nat)
    requires Layout(cells, homes, cellIxs)
    requires home < |cells| && c < |cells| && cells[c] == EMPTY
    requires forall k :: 0 <= k < |cells| && Before(home, k, c) ==> cells[k] != EMPTY
    ensures Layout(cells[c := |homes|], homes + [home], cellIxs + [c])
  {
  }

  // ---------------------------------------------------------------- deletion

  /** A table in the middle of a backward shift: `i` is the cell being vacated and the cells after it up to
      `j` have been looked at. Only items past `j` may still have `i` on their probe path. */
  ghost predicate Shifting(cells: seq<int>, homes: seq<nat>, cellIxs: seq<int>, i: int, j: int) {
    && |homes| == |cellIxs|
    && (forall m :: 0 <= m < |homes| ==> homes[m] < |cells|)
    && 0 <= i < |cells| && 0 <= j < |cells|
    && Inverse(cells, cellIxs, i)
    && (forall m, k {:trigger Before(homes[m], k, cellIxs[m])} ::
          0 <= m < |cellIxs| && 0 <= k < |cells| && Before(homes[m], k, cellIxs[m]) ==>
            if k == i then !Passed(i, cellIxs[m], j) else cells[k] != EMPTY)
    && (forall c :: 0 <= c < |cells| && Passed(i, c, j) ==> cells[c] != EMPTY)
  }

  /** The cells when item `r` is taken out: the cell of the last item gets the number `r`. */
  function TakenOut(cells: seq<int>, cellIxs: seq<int>, r: nat): (taken: seq<int>)
    requires r < |cellIxs| && 0 <= cellIxs[|cellIxs| - 1] < |cells|
    ensures |taken| == |cells|
  {
    if r < |cellIxs| - 1 then cells[cellIxs[|cellIxs| - 1] := r] else cells
  }

  lemma TakenOutInverse(cells: seq<int>, cellIxs: seq<int>, r: nat)
    requires Inverse(cells, cellIxs, -1) && r < |cellIxs|
    ensures Inverse(TakenOut(cells, cellIxs, r), SwapOut(cellIxs, r), cellIxs[r])
  {
    var last, hole := |cellIxs| - 1, cellIxs[r];
    var taken, ixs := TakenOut(cells, cellIxs, r), SwapOut(cellIxs, r);
    forall m | 0 <= m < |ixs| ensures 0 <= ixs[m] < |taken| && ixs[m] != hole && taken[ixs[m]] == m {
      var was := if m == r then last else m;
      assert ixs[m] == cellIxs[was] && cells[cellIxs[was]] == was && cells[hole] == r && cells[cellIxs[last]] == last;
    }
    forall c | 0 <= c < |taken| && c != hole && taken[c] != EMPTY ensures 0 <= taken[c] < |ixs| && ixs[taken[c]] == c {
      assert cells[c] != EMPTY;
      assert cellIxs[cells[c]] == c;
    }
  }

  lemma TakenOutReachable(cells: seq<int>, homes: seq<nat>, cellIxs: seq<int>, r: nat, m: nat, k: nat)
    requires Layout(cells, homes, cellIxs) && r < |homes|
    requires m < |homes| - 1 && k < |cells| && Before(SwapOut(homes, r)[m], k, SwapOut(cellIxs, r)[m])
    ensures TakenOut(cells, cellIxs, r)[k] != EMPTY
  {
    hide Inverse, Before;
    LayoutLast(cells, homes, cellIxs);
    var was := if m == r then |homes| - 1 else m;
    assert SwapOut(homes, r)[m] == homes[was] && SwapOut(cellIxs, r)[m] == cellIxs[was];
    assert cells[k] != EMPTY;
  }

  /** Taking item `r` out leaves a shift to do at its cell. */
  lemma ShiftStart(cells: seq<int>, homes: seq<nat>, cellIxs: seq<int>, r: nat)
    requires Layout(cells, homes, cellIxs) && r < |homes|
    ensures |cellIxs| == |homes| && 0 <= cellIxs[|cellIxs| - 1] < |cells|
    ensures Shifting(TakenOut(cells, cellIxs, r), SwapOut(homes, r), SwapOut(cellIxs, r), cellIxs[r], cellIxs[r])
  {
    hide Before, TakenOut;
    var taken, hs, ixs, i := TakenOut(cells, cellIxs, r), SwapOut(homes, r), SwapOut(cellIxs, r), cellIxs[r];
    assert 0 <= i < |cells|;
    TakenOutInverse(cells, cellIxs, r);
    forall m, k {:trigger Before(hs[m], k, ixs[m])} | 0 <= m < |ixs| && 0 <= k < |cells| && Before(hs[m], k, ixs[m])
      ensures if k == i then !Passed(i, ixs[m], i) else taken[k] != EMPTY
    {
      TakenOutReachable(cells, homes, cellIxs, r, m, k);
    }
  }

  lemma LayoutLast(cells: seq<int>, homes: seq<nat>, cellIxs: seq<int>)
    requires Layout(cells, homes, cellIxs) && homes != []
    ensures |cellIxs| == |homes| && 0 <= cellIxs[|cellIxs| - 1] < |cells|
    ensures cells[cellIxs[|cellIxs| - 1]] == |cellIxs| - 1
  {
  }

  lemma HomesSwapOut(hashes: seq<nat>, cap: nat, r: nat)
    requires cap > 0 && r < |hashes|
    ensures Homes(SwapOut(hashes, r), cap) == SwapOut(Homes(hashes, cap), r)
  {
  }

  /** A probe path that covers the hole and ends past `j` also covers the cell after `j`. */
  lemma PathContinues(cap: nat, home: nat, c: int, i: int, j: int, j': int)
    requires home < cap && 0 <= c < cap && 0 <= i < cap && 0 <= j < cap && j' == Next(j, cap)
    requires Before(home, i, c) && !Passed(i, c, j)
    requires j' != i && j' != c
    ensures Before(home, j', c) && !Passed(i, c, j')
  {
  }

  /** The item of cell `j'` moves into the hole when the hole is on its probe path. */
  lemma ShiftMove(cells: seq<int>, homes: seq<nat>, cellIxs: seq<int>, i: int, j: int, j': int)
    requires Shifting(cells, homes, cellIxs, i, j)
    requires j' == Next(j, |cells|) && j' != i && cells[j'] != EMPTY
    requires Before(homes[cells[j']], i, j')
    ensures Shifting(cells[i := cells[j']], homes, cellIxs[cells[j'] := i], j', j')
  {
    var m0, cells', cellIxs' := cells[j'], cells[i := cells[j']], cellIxs[cells[j'] := i];
    forall m, k | 0 <= m < |cellIxs'| && 0 <= k < |cells'| && Before(homes[m], k, cellIxs'[m])
      ensures k != j' ==> cells'[k] != EMPTY
    {
      assert m == m0 ==> Before(homes[m], k, cellIxs[m]);
    }
  }

  /** An item whose probe path avoids the hole stays. */
  lemma ShiftStay(cells: seq<int>, homes: seq<nat>, cellIxs: seq<int>, i: int, j: int, j': int)
    requires Shifting(cells, homes, cellIxs, i, j)
    requires j' == Next(j, |cells|) && j' != i && cells[j'] != EMPTY
    requires !Before(homes[cells[j']], i, j')
    ensures Shifting(cells, homes, cellIxs, i, j')
  {
    forall m | 0 <= m < |cellIxs| && Before(homes[m], i, cellIxs[m])
      ensures !Passed(i, cellIxs[m], j')
    {
      assert cells[cellIxs[m]] == m;
      PathContinues(|cells|, homes[m], cellIxs[m], i, j, j');
    }
  }

  lemma ShiftedItem(cells: seq<int>, homes: seq<nat>, cellIxs: seq<int>, i: int, j: int, c: int)
    requires Shifting(cells, homes, cellIxs, i, j) && 0 <= c < |cells| && c != i && cells[c] != EMPTY
    ensures 0 <= cells[c] < |homes|
  {
  }

  /** The scan of a backward shift does not come back to the hole, and stays short of the empty cell `e`
      until it reaches it. */
  lemma NextCell(cap: nat, cell: nat, e: nat, i: nat, j: nat, x: nat)
    requires cell < cap && e < cap && e != cell && i < cap && x < cap - 1
    requires j == if cell + x < cap then cell + x else cell + x - cap
    requires i == cell || Passed(cell, i, j)
    requires !Passed(cell, e, j)
    ensures var j' := Next(j, cap);
            && j' != i && j' != cell && Passed(cell, j', j')
            && (i == cell || Passed(cell, i, j'))
            && (j' != e ==> !Passed(cell, e, j'))
            && j' == if cell + (x + 1) < cap then cell + (x + 1) else cell + (x + 1) - cap
  {
  }

  /** The shift is over at the first empty cell: the hole can be emptied. */
  lemma ShiftEnd(cells: seq<int>, homes: seq<nat>, cellIxs: seq<int>, i: int, j: int, j': int)
    requires Shifting(cells, homes, cellIxs, i, j)
    requires j' == Next(j, |cells|) && j' != i && cells[j'] == EMPTY
    ensures Layout(cells[i := EMPTY], homes, cellIxs)
  {
    forall m | 0 <= m < |cellIxs|
      ensures !Before(homes[m], i, cellIxs[m])
    {
      if Before(homes[m], i, cellIxs[m]) {
        assert cells[cellIxs[m]] == m;
        PathContinues(|cells|, homes[m], cellIxs[m], i, j, j');
        assert false;
      }
    }
  }

  // ---------------------------------------------------------------- the table

  function Items(names: seq<string>, values: seq<Value>): (ms: seq<Member>)
    requires |names| == |values|
    ensures |ms| == |names|
    ensures forall m :: 0 <= m < |ms| ==> ms[m] == Member(names[m], values[m])
  {
    seq(|names|, m requires 0 <= m < |names| => Member(names[m], values[m]))
  }

  class JsonObject {
    const hash: string -> nat
    var cells: array<int>
    var hashes: array<nat>
    var names: array<string>
    var values: array<Value>
    var cellIxs: array<int>
    var count: nat
    var itemCapacity: nat
    var cellCapacity: nat

    ghost function Arrays(): (array<int>, array<nat>, array<string>, array<Value>, array<int>)
      reads this
    {
      (cells, hashes, names, values, cellIxs)
    }

    ghost function Repr(): set<object>
      reads this
    {
      {this, cells, hashes, names, values, cellIxs}
    }

    ghost predicate Shape()
      reads this
    {
      && cells.Length == cellCapacity
      && itemCapacity == cellCapacity * 7 / 10
      && hashes.Length == names.Length == values.Length == cellIxs.Length == itemCapacity
      && cells != cellIxs && cells as object != hashes && cellIxs as object != hashes
      && (cellCapacity == 0 || (cellCapacity >= STARTING_CAPACITY && PowerOfTwo(cellCapacity)))
      && count <= itemCapacity
    }

    ghost predicate Valid()
      reads this, cells, hashes, names, values, cellIxs
      ensures Valid() ==> Shape()
    {
      && Shape()
      && InStep(hash, names[..count], hashes[..count])
      && (cellCapacity > 0 ==> Layout(cells[..], Homes(hashes[..count], cellCapacity), cellIxs[..count]))
    }

    /** Cell `c` is empty and no empty cell is probed before it for the hash `h`. */
    ghost predicate FreeCell(h: nat, c: int)
      requires cells.Length == cellCapacity
      reads this, cells
    {
      && 0 <= c < cellCapacity && cells[c] == EMPTY
      && forall k :: 0 <= k < cellCapacity && Before(h % cellCapacity, k, c) ==> cells[k] != EMPTY
    }

    /** The items in storage order. */
    function Contents(): (ms: seq<Member>)
      requires Shape()
      reads this, names, values
      ensures |ms| == count
    {
      Items(names[..count], values[..count])
    }

    constructor Init(hash: string -> nat, capacity: nat)
      requires capacity == 0 || (capacity >= STARTING_CAPACITY && PowerOfTwo(capacity))
      ensures Valid()
      ensures fresh(cells) && fresh(hashes) && fresh(names) && fresh(values) && fresh(cellIxs)
      ensures this.hash == hash && cellCapacity == capacity && Contents() == []
    {
      this.hash := hash;
      count := 0;
      cellCapacity := capacity;
      itemCapacity := capacity * 7 / 10;
      cells := new int[capacity];
      names := new string[capacity * 7 / 10];
      values := new Value[capacity * 7 / 10];
      cellIxs := new int[capacity * 7 / 10];
      hashes := new nat[capacity * 7 / 10];
      new;
      for i := 0 to cellCapacity
        invariant Shape() && count == 0 && this.hash == hash && cellCapacity == capacity && fresh(Repr())
        invariant forall c :: 0 <= c < i ==> cells[c] == EMPTY
      {
        cells[i] := EMPTY;
      }
    }

    /** The probe loop, on a table with cells. */
    method Probe(key: string, h: nat) returns (ix: int, found: bool)
      requires Valid() && h == hash(key) && cellCapacity > 0
      ensures found <==> key in names[..count]
      ensures found ==> 0 <= ix < cellCapacity && 0 <= cells[ix] < count && names[cells[ix]] == key
      ensures !found ==> FreeCell(h, ix)
    {
      found := false;
      ghost var home := h % cellCapacity;
      ghost var e := EmptyCellExists(cells[..], cellIxs[..count]);
      MaskIsRemainder(h, cellCapacity);
      var cellIx := BitAnd(h, cellCapacity - 1);
      for i := 0 to cellCapacity
        invariant !found
        invariant AllOther(cells[..], names[..count], key, home, i)
      {
        MaskIsRemainder(cellIx + i, cellCapacity);
        WrapAround(cellIx, i, cellCapacity);
        ix := BitAnd(cellIx + i, cellCapacity - 1);
        var cell := cells[ix];
        if cell == EMPTY {
          NotStored(cells[..], Homes(hashes[..count], cellCapacity), names[..count], cellIxs[..count], key, home, i,
                    ix);
          return;
        }
        assert 0 <= cells[..][ix] < count;
        if h != hashes[cell] {
          continue;
        }
        if names[cell] == key {
          found := true;
          return;
        }
      }
      assert Probed(home, e, cellCapacity, cellCapacity);
      ix := EMPTY;
    }

    /** The cell of `key` if it is stored, and the cell where it would go otherwise. */
    method GetCellIx(key: string, h: nat) returns (ix: int, found: bool)
      requires Valid() && h == hash(key)
      ensures found <==> Has(Contents(), key)
      ensures found ==> 0 <= ix < cellCapacity && cells[ix] == IndexOf(Contents(), key)
      ensures !found && cellCapacity > 0 ==> FreeCell(h, ix)
      ensures !found && cellCapacity == 0 ==> ix == EMPTY
    {
      hide Layout;
      KeysAreNames(Contents(), names[..count], key);
      if cellCapacity == 0 { return EMPTY, false; }
      ix, found := Probe(key, h);
      if found {
        UniqueIndex(Contents(), key, cells[ix]);
      }
    }

    method GetValue(name: string) returns (r: Option<Value>)
      requires Valid()
      ensures r == Get(Contents(), name)
    {
      var cellIx, found := GetCellIx(name, hash(name));
      if !found { return None; }
      r := Some(values[cells[cellIx]]);
    }

    /** Stores a new item in the empty cell `cellIx`; there is room for it. */
    method Append(name: string, value: Value, h: nat, cellIx: nat)
      requires Valid() && h == hash(name) && !Has(Contents(), name) && count < itemCapacity
      requires FreeCell(h, cellIx)
      modifies Repr()
      ensures Valid() && Arrays() == old(Arrays())
      ensures Contents() == Added(old(Contents()), name, value)
    {
      KeysAreNames(Contents(), names[..count], name);
      LayoutInsert(cells[..], Homes(hashes[..count], cellCapacity), cellIxs[..count], h % cellCapacity, cellIx);
      names[count] := name;
      cells[cellIx] := count;
      values[count] := value;
      cellIxs[count] := cellIx;
      hashes[count] := h;
      count := count + 1;
      assert hashes[..count] == old(hashes[..count]) + [h];
      assert Homes(hashes[..count], cellCapacity) == Homes(old(hashes[..count]), cellCapacity) + [h % cellCapacity];
      assert cellIxs[..count] == old(cellIxs[..count]) + [cellIx];
    }

    /** Fails exactly on a stored name. A table that is not full never rehashes, so the rehash of a full one
        adds its items to the larger table without a nested rehash: that is what `decreases` says. */
    method Add(name: string, value: Value) returns (ok: bool)
      requires Valid()
      modifies Repr()
      ensures Valid() && fresh(Repr() - old(Repr()))
      ensures ok == !Has(old(Contents()), name)
      ensures Contents() == if ok then Added(old(Contents()), name, value) else old(Contents())
      ensures old(count < itemCapacity) ==> cellCapacity == old(cellCapacity) && Arrays() == old(Arrays())
      decreases if count >= itemCapacity then 2 else 0
    {
      hide Layout;
      var h := hash(name);
      var cellIx, found := GetCellIx(name, h);
      if found { return false; }
      if count >= itemCapacity {
        GrowAndRehash();
        cellIx, found := GetCellIx(name, h);
      }
      Append(name, value, h, cellIx);
      ok := true;
    }

    /** Doubles the capacity, keeping the items and their order. */
    method GrowAndRehash()
      requires Valid() && count >= itemCapacity
      modifies this
      ensures Valid()
      ensures fresh(cells) && fresh(hashes) && fresh(names) && fresh(values) && fresh(cellIxs)
      ensures Contents() == old(Contents()) && count < itemCapacity
      ensures cellCapacity == if old(cellCapacity) == 0 then STARTING_CAPACITY else 2 * old(cellCapacity)
      decreases 1, 1
    {
      DoublePower(cellCapacity);
      hide Layout, InStep, PowerOfTwo, UniqueKeys, IndexOf, Items;
      var newCapacity := if cellCapacity * 2 > STARTING_CAPACITY then cellCapacity * 2 else STARTING_CAPACITY;
      var newObject := new JsonObject.Init(hash, newCapacity);
      AddAllTo(newObject);
      TakeOver(newObject);
    }

    /** `*object = new_object`. */
    method TakeOver(newObject: JsonObject)
      requires newObject.Valid() && newObject.hash == hash
      modifies this
      ensures Valid() && Arrays() == old(newObject.Arrays()) && Contents() == old(newObject.Contents())
      ensures count == old(newObject.count) && cellCapacity == old(newObject.cellCapacity)
    {
      hide Layout, InStep;
      cells, hashes, names, values, cellIxs :=
        newObject.cells, newObject.hashes, newObject.names, newObject.values, newObject.cellIxs;
      count, itemCapacity, cellCapacity := newObject.count, newObject.itemCapacity, newObject.cellCapacity;
    }

    /** Adds the items in order to a larger table that is empty. */
    method AddAllTo(newObject: JsonObject)
      requires Valid() && newObject.Valid() && Repr() !! newObject.Repr() && newObject.Contents() == []
      requires count <= itemCapacity < newObject.itemCapacity
      modifies newObject.Repr()
      ensures newObject.Valid() && newObject.Arrays() == old(newObject.Arrays())
      ensures newObject.cellCapacity == old(newObject.cellCapacity)
      ensures newObject.Contents() == Contents()
      decreases 1, 0
    {
      ghost var ms := Contents();
      KeysAreNames(ms, names[..count], "");
      hide Layout, InStep, IndexOf, UniqueKeys;
      for i := 0 to count
        invariant newObject.Valid() && newObject.Arrays() == old(newObject.Arrays())
        invariant newObject.cellCapacity == old(newObject.cellCapacity)
        invariant newObject.Contents() == ms[..i]
      {
        NamesAreFresh(ms, i);
        var ok := newObject.Add(names[i], values[i]);
        assert ok;
      }
    }

    method SetValue(name: string, value: Value)
      requires Valid()
      modifies Repr()
      ensures Valid() && fresh(Repr() - old(Repr()))
      ensures Contents() == Assigned(old(Contents()), name, value)
    {
      hide Layout;
      var h := hash(name);
      var cellIx, found := GetCellIx(name, h);
      if found {
        values[cells[cellIx]] := value;
        return;
      }
      if count >= itemCapacity {
        GrowAndRehash();
        cellIx, found := GetCellIx(name, h);
      }
      Append(name, value, h, cellIx);
    }

    /** Moves the last item into slot `r`, and drops the last slot. */
    method MoveLast(r: nat)
      requires Shape() && r < count && 0 <= cellIxs[count - 1] < cellCapacity
      modifies this`count, cells, hashes, names, values, cellIxs
      ensures Shape() && count == old(count) - 1
      ensures cells[..] == if r < count then old(cells[..])[old(cellIxs[count - 1]) := r] else old(cells[..])
      ensures names[..count] == SwapOut(old(names[..count]), r)
      ensures hashes[..count] == SwapOut(old(hashes[..count]), r)
      ensures cellIxs[..count] == SwapOut(old(cellIxs[..count]), r)
      ensures values[..count] == SwapOut(old(values[..count]), r)
    {
      var last := count - 1;
      if r < last {
        names[r] := names[last];
        values[r] := values[last];
        cellIxs[r] := cellIxs[last];
        hashes[r] := hashes[last];
        cells[cellIxs[r]] := r;
      }
      count := count - 1;
    }

    /** Takes item `r` out. Its cell is left to be vacated. */
    method SwapWithLast(r: nat)
      requires Valid() && r < count
      modifies this`count, cells, hashes, names, values, cellIxs
      ensures Shape() && InStep(hash, names[..count], hashes[..count]) && count == old(count) - 1
      ensures Shifting(cells[..], Homes(hashes[..count], cellCapacity), cellIxs[..count], old(cellIxs[r]),
                       old(cellIxs[r]))
      ensures forall c :: 0 <= c < cellCapacity && old(cells[c]) == EMPTY ==> cells[c] == EMPTY
      ensures Contents() == SwapOut(old(Contents()), r)
    {
      hide Layout, Shifting, InStep, Items, SwapOut, PowerOfTwo, Homes;
      ghost var homes := Homes(hashes[..count], cellCapacity);
      LayoutLast(cells[..], homes, cellIxs[..count]);
      ShiftStart(cells[..], homes, cellIxs[..count], r);
      InStepSwapOut(hash, names[..count], hashes[..count], r);
      ItemsSwapOut(names[..count], values[..count], r);
      HomesSwapOut(hashes[..count], cellCapacity, r);
      MoveLast(r);
    }

    /** The cell after `j`, by its mask. */
    method CellAfter(j: nat) returns (next: nat)
      requires Shape() && j < cellCapacity
      ensures next == Next(j, cellCapacity)
    {
      MaskIsRemainder(j + 1, cellCapacity);
      WrapAround(j, 1, cellCapacity);
      next := BitAnd(j + 1, cellCapacity - 1);
    }

    /** The home cell of item `m`, by its mask. */
    method HomeOf(m: nat) returns (k: nat)
      requires Shape() && m < count
      ensures k == Homes(hashes[..count], cellCapacity)[m]
    {
      MaskIsRemainder(hashes[m], cellCapacity);
      k := BitAnd(hashes[m], cellCapacity - 1);
    }

    /** Moves the item of cell `from` to cell `i`. */
    method MoveItem(i: nat, from: nat)
      requires Shape() && i < cellCapacity && from < cellCapacity && 0 <= cells[from] < count
      modifies cells, cellIxs
      ensures cells[..] == old(cells[..])[i := old(cells[from])]
      ensures cellIxs[..count] == old(cellIxs[..count])[old(cells[from]) := i]
    {
      cellIxs[cells[from]] := i;
      cells[i] := cells[from];
    }

    /** The shift loop: vacates `cell`, moving later items of its run back where their probe needs it. Some
        cell `e` is empty, so the loop always leaves through it. */
    method ShiftBack(cell: nat, ghost e: nat)
      requires Shape() && InStep(hash, names[..count], hashes[..count]) && cellCapacity > 0
      requires Shifting(cells[..], Homes(hashes[..count], cellCapacity), cellIxs[..count], cell, cell)
      requires e < cellCapacity && e != cell && cells[e] == EMPTY
      modifies cells, cellIxs
      ensures Valid()
    {
      hide Layout, InStep, Homes, Inverse;
      var i: nat, j: nat := cell, cell;
      ghost var homes := Homes(hashes[..count], cellCapacity);
      for x := 0 to cellCapacity - 1
        invariant i < cellCapacity && i != e
        invariant j == if cell + x < cellCapacity then cell + x else cell + x - cellCapacity
        invariant i == cell || Passed(cell, i, j)
        invariant Shifting(cells[..], homes, cellIxs[..count], i, j)
        invariant cells[e] == EMPTY && !Passed(cell, e, j)
      {
        var j' := CellAfter(j);
        NextCell(cellCapacity, cell, e, i, j, x);
        if cells[j'] == EMPTY {
          ShiftEnd(cells[..], homes, cellIxs[..count], i, j, j');
          j := j';
          break;
        }
        ShiftedItem(cells[..], homes, cellIxs[..count], i, j, j');
        var k := HomeOf(cells[j']);
        if (j' > i && (k <= i || k > j')) || (j' < i && (k <= i && k > j')) {
          ShiftMove(cells[..], homes, cellIxs[..count], i, j, j');
          MoveItem(i, j');
          i := j';
        } else {
          ShiftStay(cells[..], homes, cellIxs[..count], i, j, j');
        }
        j := j';
      }
      cells[i] := EMPTY;
    }

    method Remove(name: string) returns (ok: bool)
      requires Valid()
      modifies Repr()
      ensures Valid() && Arrays() == old(Arrays())
      ensures ok == Has(old(Contents()), name)
      ensures Contents() == Removed(old(Contents()), name)
    {
      var cell, found := GetCellIx(name, hash(name));
      if !found { return false; }
      ghost var e := EmptyCellExists(cells[..], cellIxs[..count]);
      assert cellIxs[cells[..][cell]] == cell;
      SwapWithLast(cells[cell]);
      ShiftBack(cell, e);
      ok := true;
    }

    method Clear()
      requires Valid()
      modifies Repr()
      ensures Valid() && Arrays() == old(Arrays())
      ensures Contents() == []
    {
      for i := 0 to count
        invariant unchanged(this)
      {
        names[i] := "";
        values[i] := Null;
      }
      count := 0;
      for i := 0 to cellCapacity
        invariant count == 0 && Shape() && Arrays() == old(Arrays())
        invariant forall c :: 0 <= c < i ==> cells[c] == EMPTY
      {
        cells[i] := EMPTY;
      }
    }
  }

  lemma KeysAreNames(ms: seq<Member>, names: seq<string>, key: string)
    requires |ms| == |names| && forall i :: 0 <= i < |ms| ==> ms[i].key == names[i]
    ensures Has(ms, key) <==> key in names
    ensures Distinct(names) <==> UniqueKeys(ms)
  {
    assert Has(ms, key) ==> names[IndexOf(ms, key)] == key;
  }

  lemma UniqueIndex(ms: seq<Member>, key: string, i: nat)
    requires UniqueKeys(ms) && i < |ms| && ms[i].key == key
    ensures IndexOf(ms, key) == i
  {
  }

  lemma InStepSwapOut(hash: string -> nat, names: seq<string>, hashes: seq<nat>, r: nat)
    requires InStep(hash, names, hashes) && r < |names|
    ensures InStep(hash, SwapOut(names, r), SwapOut(hashes, r))
  {
  }

  lemma ItemsSwapOut(names: seq<string>, values: seq<Value>, r: nat)
    requires |names| == |values| && r < |names|
    ensures Items(SwapOut(names, r), SwapOut(values, r)) == SwapOut(Items(names, values), r)
  {
  }

  lemma NamesAreFresh(ms: seq<Member>, i: nat)
    requires UniqueKeys(ms) && i < |ms|
    ensures !Has(ms[..i], ms[i].key)
    ensures Added(ms[..i], ms[i].key, ms[i].val) == ms[..i + 1]
  {
  }

  /** Cell `k` is one of the first `i` cells probed from `home`. */
  predicate Probed(home: nat, k: int, i: nat, cap: nat) {
    home <= k < home + i || k + cap < home + i
  }

  /** The first `i` cells probed from `home` hold items with other names than `key`. */
  ghost predicate AllOther(cells: seq<int>, names: seq<string>, key: string, home: nat, i: nat) {
    forall k :: 0 <= k < |cells| && Probed(home, k, i, |cells|) ==> 0 <= cells[k] < |names| && names[cells[k]] != key
  }

  lemma ProbeOrder(cap: nat, home: nat, i: nat, ix: nat, c: int)
    requires home < cap && i < cap && ix < cap && 0 <= c < cap && c != ix
    requires ix == home + i || ix + cap == home + i
    ensures Before(home, ix, c) || Probed(home, c, i, cap)
  {
  }

  /** A probe that meets an empty cell has seen every item of its home. */
  lemma NotStored(cells: seq<int>, homes: seq<nat>, names: seq<string>, cellIxs: seq<int>, key: string,
                  home: nat, i: nat, ix: nat)
    requires Layout(cells, homes, cellIxs) && |names| == |homes|
    requires home < |cells| && i < |cells| && ix < |cells| && cells[ix] == EMPTY
    requires ix == home + i || ix + |cells| == home + i
    requires forall m :: 0 <= m < |names| && names[m] == key ==> homes[m] == home
    requires AllOther(cells, names, key, home, i)
    ensures key !in names
    ensures forall k :: 0 <= k < |cells| && Before(home, k, ix) ==> cells[k] != EMPTY
  {
    forall m | 0 <= m < |names|
      ensures names[m] != key
    {
      assert cells[cellIxs[m]] == m;
      ProbeOrder(|cells|, home, i, ix, cellIxs[m]);
    }
    forall k | 0 <= k < |cells| && Before(home, k, ix)
      ensures cells[k] != EMPTY
    {
      assert Probed(home, k, i, |cells|);
    }
  }

  lemma WrapAround(home: nat, i: nat, cap: nat)
    requires home < cap && i < cap
    ensures (home + i) % cap == if home + i < cap then home + i else home + i - cap
  {
    if home + i >= cap {
      RemainderUnique(home + i, cap, 1, home + i - cap);
    }
  }
}

/** Whole runs of table operations against finite maps. */
module TableRuns {
  import opened Options
  import opened Json
  import opened ObjectTable

  datatype Op = AddOp(key: string, val: Value) | SetOp(key: string, val: Value) | RemoveOp(key: string) | ClearOp

  function Apply(ms: seq<Member>, op: Op): seq<Member> {
    match op
    case AddOp(key, val) => if Has(ms, key) then ms else Added(ms, key, val)
    case SetOp(key, val) => Assigned(ms, key, val)
    case RemoveOp(key) => Removed(ms, key)
    case ClearOp => []
  }

  function Run(ms: seq<Member>, ops: seq<Op>): seq<Member>
    decreases ops
  {
    if ops == [] then ms else Run(Apply(ms, ops[0]), ops[1..])
  }

  /** The same operation on a finite map. */
  function MapApply(m: map<string, Value>, op: Op): map<string, Value> {
    match op
    case AddOp(key, val) => if key in m then m else m[key := val]
    case SetOp(key, val) => m[key := val]
    case RemoveOp(key) => m - {key}
    case ClearOp => map[]
  }

  function MapRun(m: map<string, Value>, ops: seq<Op>): map<string, Value>
    decreases ops
  {
    if ops == [] then m else MapRun(MapApply(m, ops[0]), ops[1..])
  }

  lemma ApplyKeepsKeysUnique(ms: seq<Member>, op: Op)
    requires UniqueKeys(ms)
    ensures UniqueKeys(Apply(ms, op))
  {
  }

  /** Looking a key up in the item list is looking it up in the map. */
  lemma GetIsMapLookup(ms: seq<Member>, key: string)
    requires UniqueKeys(ms)
    ensures Has(ms, key) <==> key in AsMap(ms)
    ensures Get(ms, key) == if key in AsMap(ms) then Some(AsMap(ms)[key]) else None
  {
    if i :| 0 <= i < |ms| && ms[i].key == key {
      UniqueIndex(ms, key, i);
    }
  }

  lemma ApplyRefines(ms: seq<Member>, op: Op)
    requires UniqueKeys(ms)
    ensures UniqueKeys(Apply(ms, op))
    ensures AsMap(Apply(ms, op)) == MapApply(AsMap(ms), op)
  {
    hide Apply, Get, IndexOf, UniqueKeys, AsMap;
    ApplyKeepsKeysUnique(ms, op);
    GetIsMapLookup(ms, if op.ClearOp? then "" else op.key);
    var ms', m' := Apply(ms, op), MapApply(AsMap(ms), op);
    forall key
      ensures key in AsMap(ms') <==> key in m'
      ensures key in m' ==> AsMap(ms')[key] == m'[key]
    {
      GetIsMapLookup(ms, key);
      GetIsMapLookup(ms', key);
      ApplyLookup(ms, op, key);
    }
  }

  lemma ApplyLookup(ms: seq<Member>, op: Op, key: string)
    requires UniqueKeys(ms)
    ensures Get(Apply(ms, op), key) ==
            match op
            case AddOp(k, val) => if k == key && !Has(ms, k) then Some(val) else Get(ms, key)
            case SetOp(k, val) => if k == key then Some(val) else Get(ms, key)
            case RemoveOp(k) => if k == key then None else Get(ms, key)
            case ClearOp => None
  {
    ApplyKeepsKeysUnique(ms, op);
    var ms' := Apply(ms, op);
    forall i | 0 <= i < |ms| && ms[i].key == key ensures IndexOf(ms, key) == i {
      UniqueIndex(ms, key, i);
    }
    forall i | 0 <= i < |ms'| && ms'[i].key == key ensures IndexOf(ms', key) == i {
      UniqueIndex(ms', key, i);
    }
    if Has(ms, key) {
      var i := IndexOf(ms, key);
      if op.AddOp? || op.SetOp? {
        assert ms'[i].key == key;
      } else if op.RemoveOp? && op.key != key {
        assert ms'[if i < |ms'| then i else IndexOf(ms, op.key)] == ms[i];
      }
    } else if op.AddOp? || op.SetOp? {
      assert op.key == key ==> ms'[|ms|].key == key;
    }
  }

  /** Over any run of operations the table holds the map those operations build. */
  lemma {:induction false} RunRefines(ms: seq<Member>, ops: seq<Op>)
    requires UniqueKeys(ms)
    ensures UniqueKeys(Run(ms, ops))
    ensures AsMap(Run(ms, ops)) == MapRun(AsMap(ms), ops)
    decreases ops
  {
    if ops != [] {
      ApplyRefines(ms, ops[0]);
      RunRefines(Apply(ms, ops[0]), ops[1..]);
    }
  }

  method Perform(t: JsonObject, op: Op)
    requires t.Valid()
    modifies t.Repr()
    ensures t.Valid() && fresh(t.Repr() - old(t.Repr()))
    ensures t.Contents() == Apply(old(t.Contents()), op)
  {
    hide Layout, InStep;
    match op
    case AddOp(key, val) => var _ := t.Add(key, val);
    case SetOp(key, val) => t.SetValue(key, val);
    case RemoveOp(key) => var _ := t.Remove(key);
    case ClearOp => t.Clear();
  }

  /** Performs a run on a table, rehashing whenever it fills up. */
  method Execute(t: JsonObject, ops: seq<Op>)
    requires t.Valid()
    modifies t.Repr()
    ensures t.Valid() && fresh(t.Repr() - old(t.Repr()))
    ensures t.Contents() == Run(old(t.Contents()), ops)
  {
    hide Layout, InStep, Apply;
    for i := 0 to |ops|
      invariant t.Valid() && fresh(t.Repr() - old(t.Repr()))
      invariant Run(t.Contents(), ops[i..]) == Run(old(t.Contents()), ops)
    {
      assert ops[i..][1..] == ops[i + 1..];
      Perform(t, ops[i]);
    }
  }
}
