/**
 * The rows of the clipboard store and the pure meaning of the operations on
 * them: which rows a statement selects, what a `DELETE ... LIMIT n` in id
 * order removes, how listings are ordered, how pin orders are assigned, how
 * tag strings are matched, and what the periodic eviction leaves behind.
 *
 * The `history` table is a sequence of rows in ascending id order (the rowid
 * order of an AUTOINCREMENT table, since ids only grow).
 */
module History {
  import opened Wrappers
  import opened Text

  type Bytes = seq<bv8>

  /** Cap fallback when the `max_history` setting is missing or not an integer. */
  const DEFAULT_MAX_HISTORY: int := 100
  /** `add_item` runs the eviction pass on every CLEANUP_INTERVAL-th insert. */
  const CLEANUP_INTERVAL: int := 10
  /** Cap on unpinned IMAGE rows kept by the eviction pass. */
  const MAX_IMAGE_HISTORY: int := 20
  /** The eviction pass compacts storage on every VACUUM_INTERVAL-th count. */
  const VACUUM_INTERVAL: int := 50
  /** Bounds applied to the `max_history` setting. */
  const MIN_HISTORY_CAP: int := 10
  const MAX_HISTORY_CAP: int := 500

  /** One row of the `history` table. */
  datatype Row = Row(
    id: int,
    content: string,
    image: Option<Bytes>,
    typeTag: string,
    timestamp: string,
    pinned: bool,
    pinOrder: int,
    useCount: int,
    tags: string,
    collectionId: Option<int>,
    note: string,
    bookmark: bool,
    urlTitle: string,
    expiresAt: Option<string>)

  /** One row of the `deleted_history` table (the trash). */
  datatype TrashEntry = TrashEntry(
    id: int,
    originalId: int,
    content: string,
    image: Option<Bytes>,
    typeTag: string,
    deletedAt: string,
    expiresAt: string)

  /** One row of the `collections` table. */
  datatype Collection = Collection(id: int, name: string, icon: string, color: string, createdAt: string)

  /** A row as an INSERT that names only these columns creates it: every other column at its default. */
  function NewRow(id: int, content: string, image: Option<Bytes>, typeTag: string,
                  timestamp: string, expiresAt: Option<string>): Row
  {
    Row(id, content, image, typeTag, timestamp, false, 0, 0, "", None, "", false, "", expiresAt)
  }

  // ---------------------------------------------------------------------
  // Ids
  // ---------------------------------------------------------------------

  /** Rows are in strictly ascending id order, so ids are unique. */
  predicate IdsAscending(h: seq<Row>) {
    forall i, j :: 0 <= i < j < |h| ==> h[i].id < h[j].id
  }

  /** Every id is positive and below the next id the table will issue. */
  predicate IdsBelow(h: seq<Row>, bound: int) {
    forall x :: x in h ==> 0 < x.id < bound
  }

  /** The index of the row with id `id`, if there is one. */
  function FindRow(h: seq<Row>, id: int): (k: Option<nat>)
    ensures k.Some? ==> k.value < |h| && h[k.value].id == id
    ensures k.None? ==> forall i :: 0 <= i < |h| ==> h[i].id != id
  {
    if h == [] then None
    else if h[0].id == id then Some(0)
    else match FindRow(h[1..], id)
      case Some(k) => Some(k + 1)
      case None => None
  }

  /** With unique ids, the row found for an id is the only row with that id. */
  lemma {:induction false} FindRowUnique(h: seq<Row>, id: int, i: int)
    requires IdsAscending(h) && 0 <= i < |h| && h[i].id == id
    ensures FindRow(h, id) == Some(i)
  {
  }

  /** An insert at the next id keeps the ids ascending and below the new bound. */
  lemma {:induction false} AppendKeepsIds(h: seq<Row>, r: Row, bound: int)
    requires IdsAscending(h) && IdsBelow(h, bound) && r.id == bound && bound >= 1
    ensures IdsAscending(h + [r]) && IdsBelow(h + [r], bound + 1)
  {
    var h' := h + [r];
    forall i, j | 0 <= i < j < |h'| ensures h'[i].id < h'[j].id {
      assert h'[i] == h[i];
    }
  }

  // ---------------------------------------------------------------------
  // Row selection (the WHERE clauses)
  // ---------------------------------------------------------------------

  datatype Selector =
    | Unpinned                                // pinned = 0
    | Pinned                                  // pinned = 1
    | UnpinnedImage                           // type = 'IMAGE' AND pinned = 0
    | UnpinnedWithContent(content: string)    // content = ? AND pinned = 0
    | WithId(id: int)                         // id = ?
    | OfType(typeTag: string)                 // type = ?
    | CreatedOn(day: string)                  // timestamp LIKE 'day%'
    | ExpiredBefore(now: string)              // expires_at IS NOT NULL AND expires_at < now

  predicate Selects(sel: Selector, r: Row) {
    match sel
    case Unpinned => !r.pinned
    case Pinned => r.pinned
    case UnpinnedImage => r.typeTag == "IMAGE" && !r.pinned
    case UnpinnedWithContent(c) => r.content == c && !r.pinned
    case WithId(id) => r.id == id
    case OfType(t) => r.typeTag == t
    case CreatedOn(day) => StartsWith(r.timestamp, day)
    case ExpiredBefore(now) => r.expiresAt.Some? && LexLess(r.expiresAt.value, now)
  }

  /** `SELECT COUNT(*) ... WHERE sel`. */
  function CountSel(h: seq<Row>, sel: Selector): (n: nat)
    ensures n <= |h|
  {
    if h == [] then 0 else (if Selects(sel, h[0]) then 1 else 0) + CountSel(h[1..], sel)
  }

  /** Counting over a list with one row in front counts that row and then the rest. */
  lemma {:induction false} CountSelCons(x: Row, t: seq<Row>, sel: Selector)
    ensures CountSel([x] + t, sel) == (if Selects(sel, x) then 1 else 0) + CountSel(t, sel)
  {
    assert ([x] + t)[0] == x && ([x] + t)[1..] == t;
  }

  /** Counting over a concatenation adds up. */
  lemma {:induction false} CountSelAppend(a: seq<Row>, b: seq<Row>, sel: Selector)
    ensures CountSel(a + b, sel) == CountSel(a, sel) + CountSel(b, sel)
  {
    if a == [] {
      assert a + b == b;
    } else {
      assert (a + b)[1..] == a[1..] + b;
      assert (a + b)[0] == a[0];
      CountSelAppend(a[1..], b, sel);
    }
  }

  /** Putting the first row back in front of rows taken from the rest keeps ids ascending. */
  lemma {:induction false} ConsAscending(h: seq<Row>, t: seq<Row>)
    requires h != []
    requires forall x :: x in t ==> x in h[1..]
    requires IdsAscending(h[1..]) ==> IdsAscending(t)
    ensures IdsAscending(h) ==> IdsAscending([h[0]] + t)
  {
    if IdsAscending(h) {
      assert IdsAscending(h[1..]);
      var r := [h[0]] + t;
      forall i, j | 0 <= i < j < |r| ensures r[i].id < r[j].id {
        if i == 0 {
          assert r[j] in t;
          var k :| 0 <= k < |h[1..]| && h[1..][k] == r[j];
          assert h[0].id < h[k + 1].id;
        } else {
          assert r[i] == t[i - 1] && r[j] == t[j - 1];
        }
      }
    }
  }

  /** `DELETE FROM history WHERE sel`: exactly the unselected rows stay, in order. */
  function RemoveWhere(h: seq<Row>, sel: Selector): (r: seq<Row>)
    ensures forall x :: x in r <==> x in h && !Selects(sel, x)
    ensures |r| == |h| - CountSel(h, sel)
    ensures IdsAscending(h) ==> IdsAscending(r)
  {
    if h == [] then []
    else if Selects(sel, h[0]) then RemoveWhere(h[1..], sel)
    else
      var t := RemoveWhere(h[1..], sel);
      ConsAscending(h, t);
      [h[0]] + t
  }

  /**
   * `DELETE FROM history WHERE id IN (SELECT id ... WHERE sel ORDER BY id ASC LIMIT n)`:
   * remove the `n` oldest selected rows (all of them if there are fewer).
   */
  function DropOldest(h: seq<Row>, sel: Selector, n: int): (r: seq<Row>)
    ensures |r| <= |h|
  {
    if h == [] then []
    else if n > 0 && Selects(sel, h[0]) then DropOldest(h[1..], sel, n - 1)
    else [h[0]] + DropOldest(h[1..], sel, n)
  }

  /** Dropping adds no row and keeps every row the selector does not pick. */
  lemma {:induction false} DropOldestMembers(h: seq<Row>, sel: Selector, n: int)
    ensures var r := DropOldest(h, sel, n);
      && (forall x :: x in r ==> x in h)
      && (forall x :: x in h && !Selects(sel, x) ==> x in r)
  {
    if h != [] {
      var m := if n > 0 && Selects(sel, h[0]) then n - 1 else n;
      DropOldestMembers(h[1..], sel, m);
      var t := DropOldest(h[1..], sel, m);
      var r := DropOldest(h, sel, n);
      assert r == t || r == [h[0]] + t;
      assert h == [h[0]] + h[1..];
    }
  }

  /** Dropping keeps the ids ascending. */
  lemma {:induction false} DropOldestAscending(h: seq<Row>, sel: Selector, n: int)
    requires IdsAscending(h)
    ensures IdsAscending(DropOldest(h, sel, n))
  {
    if h != [] {
      var m := if n > 0 && Selects(sel, h[0]) then n - 1 else n;
      assert IdsAscending(h[1..]);
      DropOldestAscending(h[1..], sel, m);
      DropOldestMembers(h[1..], sel, m);
      var t := DropOldest(h[1..], sel, m);
      if !(n > 0 && Selects(sel, h[0])) {
        ConsAscending(h, t);
      }
    }
  }

  function Min(a: int, b: int): int { if a < b then a else b }
  function Max(a: int, b: int): int { if a < b then b else a }

  /** Exactly `min(n, count)` selected rows go, and nothing else. */
  lemma {:induction false} DropOldestCounts(h: seq<Row>, sel: Selector, n: int)
    ensures var m := Min(Max(n, 0), CountSel(h, sel));
      && CountSel(DropOldest(h, sel, n), sel) == CountSel(h, sel) - m
      && |DropOldest(h, sel, n)| == |h| - m
  {
    if h != [] {
      var t := h[1..];
      if n > 0 && Selects(sel, h[0]) {
        DropOldestCounts(t, sel, n - 1);
        assert DropOldest(h, sel, n) == DropOldest(t, sel, n - 1);
        assert CountSel(h, sel) == 1 + CountSel(t, sel);
      } else {
        DropOldestCounts(t, sel, n);
        assert DropOldest(h, sel, n) == [h[0]] + DropOldest(t, sel, n);
        CountSelCons(h[0], DropOldest(t, sel, n), sel);
      }
    }
  }

  /** Removal is oldest first: every removed row is selected and older than every selected row kept. */
  lemma {:induction false} DropOldestRemovesOldest(h: seq<Row>, sel: Selector, n: int)
    requires IdsAscending(h)
    ensures var r := DropOldest(h, sel, n);
      forall x, y :: x in h && x !in r && y in r && Selects(sel, y) ==> Selects(sel, x) && x.id < y.id
  {
    if h != [] {
      if n <= 0 {
        DropOldestNone(h, sel, n);
      } else {
        var m := if Selects(sel, h[0]) then n - 1 else n;
        DropOldestRemovesOldest(h[1..], sel, m);
        DropOldestMembers(h[1..], sel, m);
        var r := DropOldest(h, sel, n);
        var t := DropOldest(h[1..], sel, m);
        forall x, y | x in h && x !in r && y in r && Selects(sel, y)
          ensures Selects(sel, x) && x.id < y.id
        {
          assert y in t;
          if x == h[0] {
            assert y in h[1..];
          } else {
            assert x in h[1..];
          }
        }
      }
    }
  }

  /** A limit of zero or less removes nothing. */
  lemma {:induction false} DropOldestNone(h: seq<Row>, sel: Selector, n: int)
    requires n <= 0
    ensures DropOldest(h, sel, n) == h
  {
    if h != [] {
      DropOldestNone(h[1..], sel, n);
      assert [h[0]] + h[1..] == h;
    }
  }

  /** A selected row makes the count positive. */
  lemma {:induction false} CountSelPositive(h: seq<Row>, sel: Selector, i: int)
    requires 0 <= i < |h| && Selects(sel, h[i])
    ensures CountSel(h, sel) >= 1
  {
    if i > 0 {
      CountSelPositive(h[1..], sel, i - 1);
    }
  }

  /** When fewer than all selected rows go, the newest row survives and is still the newest. */
  lemma {:induction false} DropOldestKeepsLast(h: seq<Row>, sel: Selector, n: int)
    requires h != []
    requires !Selects(sel, h[|h| - 1]) || n < CountSel(h, sel)
    ensures var r := DropOldest(h, sel, n); r != [] && r[|r| - 1] == h[|h| - 1]
  {
    var last := h[|h| - 1];
    if |h| == 1 {
      assert DropOldest(h[1..], sel, n) == [];
    } else {
      var t := h[1..];
      assert t[|t| - 1] == last;
      assert CountSel(h, sel) == (if Selects(sel, h[0]) then 1 else 0) + CountSel(t, sel);
      if Selects(sel, last) {
        CountSelPositive(t, sel, |t| - 1);
      }
      if n > 0 && Selects(sel, h[0]) {
        DropOldestKeepsLast(t, sel, n - 1);
        assert DropOldest(h, sel, n) == DropOldest(t, sel, n - 1);
      } else {
        DropOldestKeepsLast(t, sel, n);
        var rt := DropOldest(t, sel, n);
        assert DropOldest(h, sel, n) == [h[0]] + rt;
      }
    }
  }

  /** Dropping rows never adds to any count. */
  lemma {:induction false} DropOldestCountLe(h: seq<Row>, sel: Selector, n: int, other: Selector)
    ensures CountSel(DropOldest(h, sel, n), other) <= CountSel(h, other)
  {
    if h != [] {
      var t := h[1..];
      if n > 0 && Selects(sel, h[0]) {
        DropOldestCountLe(t, sel, n - 1, other);
        assert DropOldest(h, sel, n) == DropOldest(t, sel, n - 1);
      } else {
        DropOldestCountLe(t, sel, n, other);
        assert DropOldest(h, sel, n) == [h[0]] + DropOldest(t, sel, n);
        CountSelCons(h[0], DropOldest(t, sel, n), other);
      }
    }
  }

  /** Dropping rows keeps every row the selector does not pick, so their count is unchanged. */
  lemma {:induction false} DropOldestCountOthers(h: seq<Row>, sel: Selector, n: int, other: Selector)
    requires forall x :: Selects(other, x) ==> !Selects(sel, x)
    ensures CountSel(DropOldest(h, sel, n), other) == CountSel(h, other)
  {
    if h != [] {
      var t := h[1..];
      if n > 0 && Selects(sel, h[0]) {
        DropOldestCountOthers(t, sel, n - 1, other);
        assert DropOldest(h, sel, n) == DropOldest(t, sel, n - 1);
        assert !Selects(other, h[0]);
      } else {
        DropOldestCountOthers(t, sel, n, other);
        assert DropOldest(h, sel, n) == [h[0]] + DropOldest(t, sel, n);
        CountSelCons(h[0], DropOldest(t, sel, n), other);
      }
    }
  }

  // ---------------------------------------------------------------------
  // Eviction
  // ---------------------------------------------------------------------

  /** `min(max(v, 10), 500)`. */
  function ClampCap(v: int): (r: int)
    ensures MIN_HISTORY_CAP <= r <= MAX_HISTORY_CAP
    ensures MIN_HISTORY_CAP <= v <= MAX_HISTORY_CAP ==> r == v
  {
    Min(Max(v, MIN_HISTORY_CAP), MAX_HISTORY_CAP)
  }

  /**
   * The history cap from the settings: the `max_history` value read as an integer,
   * or 100 when it is missing or not an integer, clamped to [10, 500].
   */
  function MaxHistoryFrom(settings: map<string, string>): (cap: int)
    ensures MIN_HISTORY_CAP <= cap <= MAX_HISTORY_CAP
    ensures "max_history" !in settings ==> cap == DEFAULT_MAX_HISTORY
    ensures "max_history" in settings && ParseInt(settings["max_history"]).None? ==> cap == DEFAULT_MAX_HISTORY
  {
    var raw := if "max_history" in settings then ParseInt(settings["max_history"]) else Some(DEFAULT_MAX_HISTORY);
    match raw
    case Some(v) => ClampCap(v)
    case None => ClampCap(DEFAULT_MAX_HISTORY)
  }

  /** Storing `str(n)` under `max_history` makes the cap `n` clamped to [10, 500]. */
  lemma {:induction false} MaxHistoryOfStored(settings: map<string, string>, n: int)
    ensures MaxHistoryFrom(settings["max_history" := IntToString(n)]) == ClampCap(n)
  {
    ParseIntOfIntToString(n);
  }

  /** The first pass of the eviction: at most 20 unpinned images, the oldest removed. */
  function EvictImages(h: seq<Row>): seq<Row> {
    var images := CountSel(h, UnpinnedImage);
    if images > MAX_IMAGE_HISTORY then DropOldest(h, UnpinnedImage, images - MAX_IMAGE_HISTORY) else h
  }

  /** The second pass: at most `cap` unpinned rows, the oldest removed. */
  function EvictUnpinned(h: seq<Row>, cap: int): seq<Row> {
    var count := CountSel(h, Unpinned);
    if count > cap then DropOldest(h, Unpinned, count - cap) else h
  }

  /** What `cleanup(cap)` leaves of the table. */
  function Evicted(h: seq<Row>, cap: int): seq<Row> {
    EvictUnpinned(EvictImages(h), cap)
  }

  /** The image pass removes only unpinned images and leaves at most 20 of them. */
  lemma {:induction false} EvictImagesBounds(h: seq<Row>)
    ensures var r := EvictImages(h);
      && (forall x :: x in r ==> x in h)
      && (forall x :: x in h && !Selects(UnpinnedImage, x) ==> x in r)
      && CountSel(r, UnpinnedImage) == Min(CountSel(h, UnpinnedImage), MAX_IMAGE_HISTORY)
      && CountSel(r, Pinned) == CountSel(h, Pinned)
  {
    var images := CountSel(h, UnpinnedImage);
    if images > MAX_IMAGE_HISTORY {
      var n := images - MAX_IMAGE_HISTORY;
      assert EvictImages(h) == DropOldest(h, UnpinnedImage, n);
      DropOldestMembers(h, UnpinnedImage, n);
      DropOldestCounts(h, UnpinnedImage, n);
      DropOldestCountOthers(h, UnpinnedImage, n, Pinned);
    } else {
      assert EvictImages(h) == h;
    }
  }

  /** The unpinned pass removes only unpinned rows, leaves at most `max(cap, 0)` and adds no image. */
  lemma {:induction false} EvictUnpinnedBounds(h: seq<Row>, cap: int)
    ensures var r := EvictUnpinned(h, cap);
      && (forall x :: x in r ==> x in h)
      && (forall x :: x in h && x.pinned ==> x in r)
      && CountSel(r, Unpinned) == Min(CountSel(h, Unpinned), Max(cap, 0))
      && CountSel(r, UnpinnedImage) <= CountSel(h, UnpinnedImage)
      && CountSel(r, Pinned) == CountSel(h, Pinned)
  {
    var count := CountSel(h, Unpinned);
    if count > cap {
      DropOldestMembers(h, Unpinned, count - cap);
      DropOldestCounts(h, Unpinned, count - cap);
      DropOldestCountLe(h, Unpinned, count - cap, UnpinnedImage);
      DropOldestCountOthers(h, Unpinned, count - cap, Pinned);
    }
  }

  /**
   * After eviction: no pinned row is gone and no row is new, at most 20 unpinned
   * images and at most `max(cap, 0)` unpinned rows remain.
   */
  lemma {:induction false} EvictedBounds(h: seq<Row>, cap: int)
    ensures var r := Evicted(h, cap);
      && (forall x :: x in r ==> x in h)
      && (forall x :: x in h && x.pinned ==> x in r)
      && CountSel(r, UnpinnedImage) <= MAX_IMAGE_HISTORY
      && CountSel(r, Unpinned) <= Max(cap, 0)
      && CountSel(r, Pinned) == CountSel(h, Pinned)
  {
    var h1 := EvictImages(h);
    EvictImagesBounds(h);
    EvictUnpinnedBounds(h1, cap);
  }

  /** Eviction keeps the table in id order and issues no id. */
  lemma {:induction false} EvictedKeepsIds(h: seq<Row>, cap: int, bound: int)
    requires IdsAscending(h) && IdsBelow(h, bound)
    ensures IdsAscending(Evicted(h, cap)) && IdsBelow(Evicted(h, cap), bound)
  {
    var images := CountSel(h, UnpinnedImage);
    if images > MAX_IMAGE_HISTORY {
      DropOldestKeepsIds(h, UnpinnedImage, images - MAX_IMAGE_HISTORY, bound);
      assert EvictImages(h) == DropOldest(h, UnpinnedImage, images - MAX_IMAGE_HISTORY);
    } else {
      assert EvictImages(h) == h;
    }
    var h1 := EvictImages(h);
    var count := CountSel(h1, Unpinned);
    if count > cap {
      DropOldestKeepsIds(h1, Unpinned, count - cap, bound);
      assert Evicted(h, cap) == DropOldest(h1, Unpinned, count - cap);
    } else {
      assert Evicted(h, cap) == h1;
    }
  }

  /** Dropping rows keeps the table in id order with every id below the bound. */
  lemma {:induction false} DropOldestKeepsIds(h: seq<Row>, sel: Selector, n: int, bound: int)
    requires IdsAscending(h) && IdsBelow(h, bound)
    ensures IdsAscending(DropOldest(h, sel, n)) && IdsBelow(DropOldest(h, sel, n), bound)
  {
    DropOldestAscending(h, sel, n);
    DropOldestMembers(h, sel, n);
  }

  /** The image pass removes the oldest unpinned images. */
  lemma {:induction false} EvictImagesOldestFirst(h: seq<Row>)
    requires IdsAscending(h)
    ensures var h1 := EvictImages(h);
      && IdsAscending(h1)
      && forall x, y :: x in h && x !in h1 && y in h1 && Selects(UnpinnedImage, y) ==> Selects(UnpinnedImage, x) && x.id < y.id
  {
    var images := CountSel(h, UnpinnedImage);
    if images > MAX_IMAGE_HISTORY {
      var n := images - MAX_IMAGE_HISTORY;
      assert EvictImages(h) == DropOldest(h, UnpinnedImage, n);
      DropOldestRemovesOldest(h, UnpinnedImage, n);
      DropOldestAscending(h, UnpinnedImage, n);
    } else {
      assert EvictImages(h) == h;
    }
  }

  /** The unpinned pass removes the oldest unpinned rows. */
  lemma {:induction false} EvictUnpinnedOldestFirst(h: seq<Row>, cap: int)
    requires IdsAscending(h)
    ensures var r := EvictUnpinned(h, cap);
      forall x, y :: x in h && x !in r && y in r && !y.pinned ==> !x.pinned && x.id < y.id
  {
    var count := CountSel(h, Unpinned);
    if count > cap {
      assert EvictUnpinned(h, cap) == DropOldest(h, Unpinned, count - cap);
      DropOldestRemovesOldest(h, Unpinned, count - cap);
    } else {
      assert EvictUnpinned(h, cap) == h;
    }
  }

  /** Each eviction pass removes the oldest rows it selects. */
  lemma {:induction false} EvictedOldestFirst(h: seq<Row>, cap: int)
    requires IdsAscending(h)
    ensures var h1 := EvictImages(h);
      && (forall x, y :: x in h && x !in h1 && y in h1 && Selects(UnpinnedImage, y) ==> Selects(UnpinnedImage, x) && x.id < y.id)
      && var r := EvictUnpinned(h1, cap);
      (forall x, y :: x in h1 && x !in r && y in r && !y.pinned ==> !x.pinned && x.id < y.id)
  {
    EvictImagesOldestFirst(h);
    EvictUnpinnedOldestFirst(EvictImages(h), cap);
  }

  /** With a cap of at least one, the newest row survives eviction and is still the newest. */
  lemma {:induction false} EvictedKeepsNewest(h: seq<Row>, cap: int)
    requires h != [] && cap >= 1
    ensures var r := Evicted(h, cap); r != [] && r[|r| - 1] == h[|h| - 1]
  {
    var images := CountSel(h, UnpinnedImage);
    var h1 := EvictImages(h);
    if images > MAX_IMAGE_HISTORY {
      DropOldestKeepsLast(h, UnpinnedImage, images - MAX_IMAGE_HISTORY);
    }
    assert h1 != [] && h1[|h1| - 1] == h[|h| - 1];
    var count := CountSel(h1, Unpinned);
    if count > cap {
      DropOldestKeepsLast(h1, Unpinned, count - cap);
    }
  }

  // ---------------------------------------------------------------------
  // Filtering and the listing order
  // ---------------------------------------------------------------------

  /** A row and its successors in table order: rows after the first have larger ids. */
  lemma {:induction false} TailAscending(h: seq<Row>)
    requires h != [] && IdsAscending(h)
    ensures IdsAscending(h[1..])
    ensures forall x :: x in h[1..] ==> h[0].id < x.id
  {
    forall x | x in h[1..] ensures h[0].id < x.id {
      var k :| 0 <= k < |h[1..]| && h[1..][k] == x;
      assert h[k + 1] == x;
    }
  }

  /** `SELECT ... WHERE p` in table order: exactly the rows satisfying `p`, ids still ascending. */
  function Keep(h: seq<Row>, p: Row -> bool): (r: seq<Row>)
    ensures forall x :: x in r <==> x in h && p(x)
    ensures IdsAscending(h) ==> IdsAscending(r)
  {
    if h == [] then []
    else
      var t := Keep(h[1..], p);
      ConsAscending(h, t);
      if p(h[0]) then [h[0]] + t else t
  }

  /** `ORDER BY pinned DESC, pin_order ASC, id DESC`: `a` is listed before `b`. */
  predicate ListedBefore(a: Row, b: Row) {
    || (a.pinned && !b.pinned)
    || (a.pinned == b.pinned && a.pinOrder < b.pinOrder)
    || (a.pinned == b.pinned && a.pinOrder == b.pinOrder && a.id > b.id)
  }

  /** A listing in the order the queries return rows. */
  predicate SortedForListing(s: seq<Row>) {
    forall i, j :: 0 <= i < j < |s| ==> ListedBefore(s[i], s[j])
  }

  /** The listing order is a strict order, total on rows with different ids. */
  lemma {:induction false} ListedBeforeOrder(a: Row, b: Row, c: Row)
    ensures !ListedBefore(a, a)
    ensures ListedBefore(a, b) ==> !ListedBefore(b, a)
    ensures ListedBefore(a, b) && ListedBefore(b, c) ==> ListedBefore(a, c)
    ensures a.id != b.id ==> ListedBefore(a, b) || ListedBefore(b, a)
  {
  }

  /** Insert `x` in front of the first row it is listed before. */
  function InsertListed(x: Row, s: seq<Row>): seq<Row> {
    if s == [] || ListedBefore(x, s[0]) then [x] + s
    else [s[0]] + InsertListed(x, s[1..])
  }

  /** Inserting a row with a new id into a sorted listing keeps it sorted and adds just that row. */
  lemma {:induction false} InsertListedSorted(x: Row, s: seq<Row>)
    requires SortedForListing(s)
    requires forall y :: y in s ==> y.id != x.id
    ensures var r := InsertListed(x, s);
      SortedForListing(r) && forall y :: y in r <==> y == x || y in s
  {
    if s == [] {
    } else if ListedBefore(x, s[0]) {
      var r := [x] + s;
      forall i, j | 0 <= i < j < |r| ensures ListedBefore(r[i], r[j]) {
        if i == 0 && j > 1 {
          ListedBeforeOrder(x, s[0], s[j - 1]);
        }
      }
    } else {
      InsertListedSorted(x, s[1..]);
      var t := InsertListed(x, s[1..]);
      var r := [s[0]] + t;
      assert s[0] in s;
      ListedBeforeOrder(s[0], x, s[0]);
      forall i, j | 0 <= i < j < |r| ensures ListedBefore(r[i], r[j]) {
        if i == 0 {
          assert r[j] in t;
          if r[j] != x {
            var k :| 0 <= k < |s[1..]| && s[1..][k] == r[j];
            assert s[k + 1] == r[j];
          }
        } else {
          assert r[i] == t[i - 1] && r[j] == t[j - 1];
        }
      }
      assert s == [s[0]] + s[1..];
    }
  }

  /** The table's rows in listing order (an insertion sort). */
  function Listing(h: seq<Row>): seq<Row> {
    if h == [] then [] else InsertListed(h[0], Listing(h[1..]))
  }

  /** The listing of a table holds exactly its rows, sorted for display. */
  lemma {:induction false} ListingSorted(h: seq<Row>)
    requires IdsAscending(h)
    ensures SortedForListing(Listing(h))
    ensures forall y :: y in Listing(h) <==> y in h
  {
    if h != [] {
      TailAscending(h);
      ListingSorted(h[1..]);
      InsertListedSorted(h[0], Listing(h[1..]));
      assert h == [h[0]] + h[1..];
    }
  }

  /** A sequence without members is empty. */
  lemma {:induction false} NoMembers(t: seq<Row>)
    ensures (forall x :: x !in t) ==> t == []
  {
    if t != [] {
      assert t[0] in t;
    }
  }

  /** Two sorted listings of the same rows are the same sequence: the order leaves no ties. */
  lemma {:induction false} ListingUnique(s: seq<Row>, t: seq<Row>)
    requires SortedForListing(s) && SortedForListing(t)
    requires forall x :: x in s <==> x in t
    ensures s == t
  {
    if s == [] {
      NoMembers(t);
    } else {
      assert s[0] in s && s[0] in t;
      var i :| 0 <= i < |t| && t[i] == s[0];
      assert t[0] in t && t[0] in s;
      var j :| 0 <= j < |s| && s[j] == t[0];
      ListedBeforeOrder(s[0], t[0], s[0]);
      assert i == 0 || j == 0;
      forall x ensures x in s[1..] <==> x in t[1..] {
        if x in s[1..] {
          var k :| 0 <= k < |s[1..]| && s[1..][k] == x;
          assert ListedBefore(s[0], s[k + 1]);
          ListedBeforeOrder(x, x, x);
          assert x in t && x != t[0];
          var m :| 0 <= m < |t| && t[m] == x;
          assert t[1..][m - 1] == x;
        }
        if x in t[1..] {
          var k :| 0 <= k < |t[1..]| && t[1..][k] == x;
          assert ListedBefore(t[0], t[k + 1]);
          ListedBeforeOrder(x, x, x);
          assert x in s && x != s[0];
          var m :| 0 <= m < |s| && s[m] == x;
          assert s[1..][m - 1] == x;
        }
      }
      ListingUnique(s[1..], t[1..]);
      assert s == [s[0]] + s[1..] && t == [t[0]] + t[1..];
    }
  }

  /** The table filter chosen by `get_items`' `type_filter` argument. */
  datatype ListFilter = NoFilter | PinnedOnly | BookmarkedOnly | TypeIs(typeTag: string)

  /** The type a display caption selects, in the current labels or the legacy ones. */
  function TypeOfLabel(caption: string): Option<string> {
    if caption == "📝 텍스트" || caption == "텍스트" then Some("TEXT")
    else if caption == "🖼️ 이미지" || caption == "이미지" then Some("IMAGE")
    else if caption == "🔗 링크" || caption == "링크" then Some("LINK")
    else if caption == "💻 코드" || caption == "코드" then Some("CODE")
    else if caption == "🎨 색상" || caption == "색상" then Some("COLOR")
    else None
  }

  /** "📌 고정" keeps pinned rows, "⭐ 북마크" bookmarked ones, a type caption one type; "전체" and unknown labels keep all. */
  function FilterOf(caption: string): (f: ListFilter)
    ensures caption == "전체" ==> f == NoFilter
    ensures f.TypeIs? ==> f.typeTag in {"TEXT", "IMAGE", "LINK", "CODE", "COLOR"}
  {
    if caption == "📌 고정" then PinnedOnly
    else if caption == "⭐ 북마크" then BookmarkedOnly
    else match TypeOfLabel(caption)
      case Some(t) => TypeIs(t)
      case None => NoFilter
  }

  /** A row shown by `get_items(search, caption)`: the search text occurs in it and it passes the filter. */
  predicate Listed(r: Row, search: string, f: ListFilter) {
    && Contains(r.content, search)
    && match f
       case NoFilter => true
       case PinnedOnly => r.pinned
       case BookmarkedOnly => r.bookmark
       case TypeIs(t) => r.typeTag == t
  }

  // ---------------------------------------------------------------------
  // Single-row updates and pin orders
  // ---------------------------------------------------------------------

  /** The column assignments of the `UPDATE history SET ... WHERE id = ?` statements. */
  datatype Edit =
    | SetPin(pin: bool, order: int)
    | SetPinOrder(newOrder: int)
    | SetBookmark(mark: bool)
    | BumpUseCount
    | SetTags(newTags: string)
    | SetNote(newNote: string)
    | SetUrlTitle(title: string)
    | SetCollection(collection: Option<int>)

  /** An edit changes only the columns it assigns, never the id or the copied payload. */
  function Apply(r: Row, e: Edit): (r': Row)
    ensures r'.id == r.id && r'.content == r.content && r'.image == r.image
    ensures r'.typeTag == r.typeTag && r'.timestamp == r.timestamp && r'.expiresAt == r.expiresAt
  {
    match e
    case SetPin(on, order) => r.(pinned := on, pinOrder := order)
    case SetPinOrder(order) => r.(pinOrder := order)
    case SetBookmark(on) => r.(bookmark := on)
    case BumpUseCount => r.(useCount := r.useCount + 1)
    case SetTags(t) => r.(tags := t)
    case SetNote(n) => r.(note := n)
    case SetUrlTitle(t) => r.(urlTitle := t)
    case SetCollection(c) => r.(collectionId := c)
  }

  /**
   * `UPDATE history SET ... WHERE id = ?`: the row with that id, if there is one, is
   * edited in place; every other row is left as it was.
   */
  function Edited(h: seq<Row>, id: int, e: Edit): (r: seq<Row>)
    requires IdsAscending(h)
    ensures |r| == |h|
    ensures forall i :: 0 <= i < |h| ==> r[i] == if h[i].id == id then Apply(h[i], e) else h[i]
    ensures IdsAscending(r)
  {
    match FindRow(h, id)
    case None => h
    case Some(k) => h[k := Apply(h[k], e)]
  }

  /** Rows edited index by index keep their ids, so the id invariants carry over. */
  lemma {:induction false} SameIdsKeepBounds(h: seq<Row>, r: seq<Row>, bound: int)
    requires |r| == |h| && forall i :: 0 <= i < |h| ==> r[i].id == h[i].id
    requires IdsBelow(h, bound)
    ensures IdsBelow(r, bound)
  {
    forall x | x in r ensures 0 < x.id < bound {
      var i :| 0 <= i < |r| && r[i] == x;
      assert h[i] in h;
    }
  }

  /** `MAX(pin_order)` over the pinned rows, `None` when no row is pinned. */
  function MaxPinOrder(h: seq<Row>): (m: Option<int>)
    ensures m.None? <==> forall i :: 0 <= i < |h| ==> !h[i].pinned
    ensures m.Some? ==> forall i :: 0 <= i < |h| && h[i].pinned ==> h[i].pinOrder <= m.value
    ensures m.Some? ==> exists i :: 0 <= i < |h| && h[i].pinned && h[i].pinOrder == m.value
  {
    if h == [] then None
    else
      var rest := MaxPinOrder(h[1..]);
      assert forall i :: 1 <= i < |h| ==> h[i] == h[1..][i - 1];
      if !h[0].pinned then
        (if rest.Some? then
           var i :| 0 <= i < |h[1..]| && h[1..][i].pinned && h[1..][i].pinOrder == rest.value;
           assert h[i + 1] == h[1..][i];
           rest
         else rest)
      else if rest.None? || rest.value < h[0].pinOrder then Some(h[0].pinOrder)
      else
        var i :| 0 <= i < |h[1..]| && h[1..][i].pinned && h[1..][i].pinOrder == rest.value;
        assert h[i + 1] == h[1..][i];
        rest
  }

  /** `COALESCE(MAX(pin_order), -1) + 1` over the pinned rows: the order a newly pinned row gets. */
  function NextPinOrder(h: seq<Row>): (n: int)
    ensures forall i :: 0 <= i < |h| && h[i].pinned ==> h[i].pinOrder < n
    ensures (forall i :: 0 <= i < |h| ==> !h[i].pinned) ==> n == 0
    ensures (exists i :: 0 <= i < |h| && h[i].pinned) ==> exists i :: 0 <= i < |h| && h[i].pinned && h[i].pinOrder == n - 1
  {
    match MaxPinOrder(h)
    case None => 0
    case Some(m) => m + 1
  }

  /** No id occurs twice: `len(ids) == len(set(ids))`. */
  predicate Distinct(ids: seq<int>) {
    forall i, j :: 0 <= i < j < |ids| ==> ids[i] != ids[j]
  }

  /** The position of the first occurrence of `x` in `s`. */
  function IndexIn(s: seq<int>, x: int): (k: nat)
    requires x in s
    ensures k < |s| && s[k] == x
    ensures forall j :: 0 <= j < k ==> s[j] != x
  {
    if s[0] == x then 0 else 1 + IndexIn(s[1..], x)
  }

  /** The first-occurrence index is the only index with no earlier occurrence. */
  lemma {:induction false} IndexInUnique(s: seq<int>, x: int, k: int)
    requires 0 <= k < |s| && s[k] == x && forall j :: 0 <= j < k ==> s[j] != x
    ensures IndexIn(s, x) == k
  {
  }

  /** The table has a pinned row with this id (the row `... WHERE id = ? AND pinned = 1` updates). */
  predicate IsPinnedId(h: seq<Row>, id: int) {
    match FindRow(h, id)
    case Some(k) => h[k].pinned
    case None => false
  }

  /** `update_pin_orders` succeeds: the list is empty, or distinct ids that all name pinned rows. */
  predicate PinOrdersAccepted(h: seq<Row>, ids: seq<int>) {
    ids == [] || (Distinct(ids) && forall i :: 0 <= i < |ids| ==> IsPinnedId(h, ids[i]))
  }

  /** Every row whose id is listed gets its position in the list as pin order. */
  function WithPinOrders(h: seq<Row>, ids: seq<int>): seq<Row> {
    seq(|h|, i requires 0 <= i < |h| =>
      if h[i].id in ids then h[i].(pinOrder := IndexIn(ids, h[i].id)) else h[i])
  }

  /** Extending the list by one new id changes exactly the row with that id. */
  lemma {:induction false} WithPinOrdersStep(h: seq<Row>, ids: seq<int>, n: int, k: int)
    requires 0 <= n < |ids| && Distinct(ids)
    requires 0 <= k < |h| && h[k].id == ids[n] && IdsAscending(h)
    ensures WithPinOrders(h, ids[..n + 1]) == WithPinOrders(h, ids[..n])[k := h[k].(pinOrder := n)]
  {
    var a, b := WithPinOrders(h, ids[..n + 1]), WithPinOrders(h, ids[..n])[k := h[k].(pinOrder := n)];
    forall i | 0 <= i < |h| ensures a[i] == b[i] {
      var x := h[i].id;
      if i == k {
        IndexInUnique(ids[..n + 1], x, n);
      } else if x in ids[..n] {
        var m := IndexIn(ids[..n], x);
        IndexInUnique(ids[..n + 1], x, m);
      } else {
        assert x != ids[n];
      }
    }
  }

  /** Listing all ids of `ids` makes the pinned rows among them listed in the order of `ids`. */
  lemma {:induction false} PinnedListingFollowsOrder(h: seq<Row>, ids: seq<int>, x: Row, y: Row)
    requires Distinct(ids)
    requires x in WithPinOrders(h, ids) && y in WithPinOrders(h, ids)
    requires x.pinned && y.pinned && x.id in ids && y.id in ids && x.id != y.id
    ensures ListedBefore(x, y) <==> IndexIn(ids, x.id) < IndexIn(ids, y.id)
  {
    var w := WithPinOrders(h, ids);
    var i :| 0 <= i < |w| && w[i] == x;
    var j :| 0 <= j < |w| && w[j] == y;
    assert x.pinOrder == IndexIn(ids, x.id);
    assert y.pinOrder == IndexIn(ids, y.id);
  }

  /**
   * One step of the pin-order loop over rows already given the first `n` orders: the
   * row the next id finds there is pinned exactly when the id names a pinned row of the
   * original table, and giving it order `n` gives the first `n + 1` orders.
   */
  lemma {:induction false} PinOrdersLoopStep(h: seq<Row>, ids: seq<int>, n: int)
    requires 0 <= n < |ids| && Distinct(ids) && IdsAscending(h)
    ensures var cur := WithPinOrders(h, ids[..n]);
      var k := FindRow(cur, ids[n]);
      && (IsPinnedId(h, ids[n]) <==> k.Some? && cur[k.value].pinned)
      && (k.Some? ==> cur[k.value := cur[k.value].(pinOrder := n)] == WithPinOrders(h, ids[..n + 1]))
  {
    var cur := WithPinOrders(h, ids[..n]);
    WithPinOrdersOnlyOrders(h, ids[..n]);
    FindRowSameIds(cur, h, ids[n]);
    var k := FindRow(cur, ids[n]);
    if k.Some? {
      assert cur[k.value].pinned == h[k.value].pinned;
      WithPinOrdersStep(h, ids, n, k.value);
    }
  }

  /** Pin orders change only the `pin_order` column of the listed rows. */
  lemma {:induction false} WithPinOrdersOnlyOrders(h: seq<Row>, ids: seq<int>)
    ensures var w := WithPinOrders(h, ids);
      && |w| == |h|
      && forall i :: 0 <= i < |h| ==>
           (w[i].(pinOrder := 0) == h[i].(pinOrder := 0) && (h[i].id !in ids ==> w[i] == h[i]))
  {
  }

  // ---------------------------------------------------------------------
  // Tags
  // ---------------------------------------------------------------------

  /** `(tag or "").replace("，", ",").strip().strip(",")`: the tag `get_items_by_tag` looks for. */
  function NormalizeQueryTag(tag: string): string {
    StripChar(Strip(Replace(tag, "，", ",")), ',')
  }

  /** The stored tag text as the query rewrites it: full-width commas and the spaces next to commas become plain commas. */
  function NormalizeStoredTags(tags: string): string {
    Replace(Replace(Replace(tags, "，", ","), ", ", ","), " ,", ",")
  }

  /** `tags != '' AND instr(',' || normalized tags || ',', ',' || q || ',') > 0`. */
  predicate TagMatches(r: Row, q: string) {
    r.tags != "" && Contains("," + NormalizeStoredTags(r.tags) + ",", "," + q + ",")
  }

  /** The comma-separated tokens of a row's normalized tag text. */
  function TagTokens(r: Row): (toks: seq<string>)
    ensures |toks| >= 1 && forall k :: 0 <= k < |toks| ==> ',' !in toks[k]
  {
    SplitOn(NormalizeStoredTags(r.tags), ',')
  }

  /** A comma-free tag matches a row exactly when it is one whole token of the row's normalized tags. */
  lemma {:induction false} TagMatchesToken(r: Row, q: string)
    requires ',' !in q
    ensures TagMatches(r, q) <==> r.tags != "" && q in TagTokens(r)
  {
    var n := NormalizeStoredTags(r.tags);
    JoinSplitOn(n, ',');
    FramedTokenMatch(SplitOn(n, ','), q);
  }

  /** A string of plain commas holds no full-width comma, so the replacement leaves it alone. */
  lemma {:induction false} NoFullWidthComma(tag: string)
    requires forall k :: 0 <= k < |tag| ==> tag[k] == ','
    ensures !Contains(tag, "，") && Replace(tag, "，", ",") == tag
  {
    if tag != [] {
      NoFullWidthComma(tag[1..]);
      assert tag[..1][0] == tag[0];
      assert !StartsWith(tag, "，");
    }
  }

  /** A tag made only of commas, or the empty tag, normalizes to the empty tag, for which no row is listed. */
  lemma {:induction false} QueryTagOfCommas(tag: string)
    requires forall k :: 0 <= k < |tag| ==> tag[k] == ','
    ensures NormalizeQueryTag(tag) == ""
  {
    NoFullWidthComma(tag);
    assert IsStripped(tag) by {
      if tag != [] {
        assert tag[0] == ',' && tag[|tag| - 1] == ',';
      }
    }
    StripOfStripped(tag);
    assert Strip(Replace(tag, "，", ",")) == tag;
    StripCharAll(tag, ',');
  }

  /** The stripped, non-empty pieces of a comma-separated tag text. */
  function PieceTags(ps: seq<string>): set<string> {
    if ps == [] then {}
    else
      var last := Strip(ps[|ps| - 1]);
      PieceTags(ps[..|ps| - 1]) + (if last != "" then {last} else {})
  }

  /** The tags of one row: the non-empty stripped pieces of its comma-separated tag text. */
  function RowTags(r: Row): set<string> {
    if r.tags != "" then PieceTags(SplitOn(r.tags, ',')) else {}
  }

  /** Every tag in use in the table (the set `get_all_tags` sorts). */
  function AllTags(h: seq<Row>): set<string> {
    if h == [] then {} else AllTags(h[..|h| - 1]) + RowTags(h[|h| - 1])
  }

  /** One more row adds its tags to those in use. */
  lemma {:induction false} AllTagsStep(h: seq<Row>, i: int)
    requires 0 <= i < |h|
    ensures AllTags(h[..i + 1]) == AllTags(h[..i]) + RowTags(h[i])
  {
    assert h[..i + 1][..i] == h[..i];
  }

  /** One more piece adds its stripped text, when that is not empty. */
  lemma {:induction false} PieceTagsStep(ps: seq<string>, j: int)
    requires 0 <= j < |ps|
    ensures Strip(ps[j]) != "" ==> PieceTags(ps[..j + 1]) == PieceTags(ps[..j]) + {Strip(ps[j])}
    ensures Strip(ps[j]) == "" ==> PieceTags(ps[..j + 1]) == PieceTags(ps[..j])
  {
    assert ps[..j + 1][..j] == ps[..j];
  }

  /** A tag is in use exactly when some row of the table has it. */
  lemma {:induction false} AllTagsIff(h: seq<Row>, t: string)
    ensures t in AllTags(h) <==> exists x :: x in h && t in RowTags(x)
  {
    if h != [] {
      var n := |h| - 1;
      AllTagsIff(h[..n], t);
      assert h == h[..n] + [h[n]];
    }
  }

  /** A tag comes from a piece list exactly when some piece strips to it. */
  lemma {:induction false} PieceTagsIff(ps: seq<string>, t: string)
    ensures t in PieceTags(ps) <==> t != "" && exists p :: p in ps && Strip(p) == t
  {
    if ps != [] {
      var n := |ps| - 1;
      PieceTagsIff(ps[..n], t);
      assert ps == ps[..n] + [ps[n]];
    }
  }

  /** A row has a tag exactly when its tag text is set and one of its comma-separated pieces strips to that non-empty tag. */
  lemma {:induction false} RowTagsIff(r: Row, t: string)
    ensures t in RowTags(r) <==> r.tags != "" && t != "" && exists p :: p in SplitOn(r.tags, ',') && Strip(p) == t
  {
    PieceTagsIff(SplitOn(r.tags, ','), t);
  }

  /** Code-point ascending order without repeats: `sorted(set)`. */
  predicate StrictlySorted(s: seq<string>) {
    forall i, j :: 0 <= i < j < |s| ==> LexLess(s[i], s[j])
  }

  /** A finite non-empty set of strings has a least element. */
  lemma {:induction false} LeastExists(s: set<string>) returns (m: string)
    requires s != {}
    ensures m in s && forall y :: y in s ==> y == m || LexLess(m, y)
    decreases |s|
  {
    var a :| a in s;
    if s == {a} {
      m := a;
    } else {
      var m' := LeastExists(s - {a});
      LexLessTotal(a, m');
      if LexLess(a, m') {
        m := a;
        forall y | y in s ensures y == m || LexLess(m, y) {
          if y != a && y != m' {
            LexLessTransitive(a, m', y);
          }
        }
      } else {
        m := m';
      }
    }
  }

  // ---------------------------------------------------------------------
  // Statistics, insertion and expiry
  // ---------------------------------------------------------------------

  /** No selected row means a zero count. */
  lemma {:induction false} CountSelZero(h: seq<Row>, sel: Selector)
    requires forall i :: 0 <= i < |h| ==> !Selects(sel, h[i])
    ensures CountSel(h, sel) == 0
  {
    if h != [] {
      CountSelZero(h[1..], sel);
    }
  }

  /** `dict(SELECT type, COUNT(*) FROM history GROUP BY type)`. */
  function TypeCounts(h: seq<Row>): map<string, nat> {
    if h == [] then map[]
    else
      var m := TypeCounts(h[1..]);
      var t := h[0].typeTag;
      if t in m then m[t := m[t] + 1] else m[t := 1]
  }

  /** The type counts hold one entry per type present, with its row count. */
  lemma {:induction false} TypeCountsAt(h: seq<Row>, t: string)
    ensures t in TypeCounts(h) <==> exists i :: 0 <= i < |h| && h[i].typeTag == t
    ensures t in TypeCounts(h) ==> TypeCounts(h)[t] == CountSel(h, OfType(t))
  {
    if h != [] {
      var tail := h[1..];
      TypeCountsAt(tail, t);
      assert forall i :: 1 <= i < |h| ==> h[i] == tail[i - 1];
      if (exists i :: 0 <= i < |h| && h[i].typeTag == t) && h[0].typeTag != t {
        var i :| 0 <= i < |h| && h[i].typeTag == t;
        assert tail[i - 1].typeTag == t;
      }
      if h[0].typeTag == t && t !in TypeCounts(tail) {
        CountSelZero(tail, OfType(t));
      }
    }
  }

  /** What `add_item` leaves of the table before its insert: one unpinned row with the same content removed unless the new item is an image. */
  function Deduped(h: seq<Row>, content: string, typeTag: string): seq<Row> {
    if typeTag != "IMAGE" then DropOldest(h, UnpinnedWithContent(content), 1) else h
  }

  /**
   * The de-duplicating insert: for a non-image item at most one row goes, the oldest
   * unpinned row with the same content whatever its type, no other row is touched, and
   * after the insert exactly `max(n, 1)` unpinned rows hold that content where `n`
   * counted them before. So a table with no unpinned duplicates keeps exactly one.
   */
  lemma {:induction false} AddItemDedup(h: seq<Row>, content: string, typeTag: string, r: Row)
    requires IdsAscending(h) && typeTag != "IMAGE"
    requires r.content == content && !r.pinned
    ensures var d, sel := Deduped(h, content, typeTag), UnpinnedWithContent(content);
      && |d| == |h| - Min(1, CountSel(h, sel))
      && (forall x :: x in d ==> x in h)
      && (forall x :: x in h && (x.pinned || x.content != content) ==> x in d)
      && (forall x, y :: x in h && x !in d && y in d && Selects(sel, y) ==> Selects(sel, x) && x.id < y.id)
      && CountSel(d + [r], sel) == Max(CountSel(h, sel), 1)
  {
    var sel := UnpinnedWithContent(content);
    DropOldestCounts(h, sel, 1);
    DropOldestMembers(h, sel, 1);
    DropOldestRemovesOldest(h, sel, 1);
    CountSelAppend(Deduped(h, content, typeTag), [r], sel);
  }

  /** The de-duplicated table with the new row at the next id keeps the id invariants. */
  lemma {:induction false} DedupedKeepsIds(h: seq<Row>, content: string, typeTag: string, r: Row, bound: int)
    requires IdsAscending(h) && IdsBelow(h, bound) && r.id == bound && bound >= 1
    ensures IdsAscending(Deduped(h, content, typeTag) + [r]) && IdsBelow(Deduped(h, content, typeTag) + [r], bound + 1)
  {
    if typeTag != "IMAGE" {
      DropOldestAscending(h, UnpinnedWithContent(content), 1);
      DropOldestMembers(h, UnpinnedWithContent(content), 1);
    }
    AppendKeepsIds(Deduped(h, content, typeTag), r, bound);
  }

  /** An image is inserted without removing anything. */
  lemma {:induction false} AddImageKeepsAll(h: seq<Row>, content: string)
    ensures Deduped(h, content, "IMAGE") == h
  {
  }

  // ---------------------------------------------------------------------
  // Trash and collections
  // ---------------------------------------------------------------------

  /** Every trash id is positive and below the next id the trash will issue. */
  predicate TrashIdsBelow(t: seq<TrashEntry>, bound: int) {
    forall e :: e in t ==> 0 < e.id < bound
  }

  /** The index of the trash entry with id `id`, if there is one. */
  function FindTrash(t: seq<TrashEntry>, id: int): (k: Option<nat>)
    ensures k.Some? ==> k.value < |t| && t[k.value].id == id
    ensures k.None? ==> forall i :: 0 <= i < |t| ==> t[i].id != id
  {
    if t == [] then None
    else if t[0].id == id then Some(0)
    else match FindTrash(t[1..], id)
      case Some(k) => Some(k + 1)
      case None => None
  }

  /** `DELETE FROM deleted_history WHERE id = ?`: every other entry stays, in order. */
  function TrashWithout(t: seq<TrashEntry>, id: int): (r: seq<TrashEntry>)
    ensures forall e :: e in r <==> e in t && e.id != id
  {
    if t == [] then [] else (if t[0].id != id then [t[0]] else []) + TrashWithout(t[1..], id)
  }

  /** `DELETE FROM deleted_history WHERE expires_at < now`: the entries not yet expired stay, in order. */
  function TrashUnexpired(t: seq<TrashEntry>, now: string): (r: seq<TrashEntry>)
    ensures forall e :: e in r <==> e in t && !LexLess(e.expiresAt, now)
    ensures |r| <= |t|
  {
    if t == [] then [] else (if !LexLess(t[0].expiresAt, now) then [t[0]] else []) + TrashUnexpired(t[1..], now)
  }

  /** Removing an entry appended under an id above all others gives back the earlier trash. */
  lemma {:induction false} TrashWithoutAppended(t: seq<TrashEntry>, e: TrashEntry)
    requires TrashIdsBelow(t, e.id)
    ensures TrashWithout(t + [e], e.id) == t
  {
    if t == [] {
      assert TrashWithout([e][1..], e.id) == [];
    } else {
      assert t[0] in t;
      assert (t + [e])[1..] == t[1..] + [e];
      TrashWithoutAppended(t[1..], e);
      assert t == [t[0]] + t[1..];
    }
  }

  /** The trash entry `soft_delete` writes for a row: its id as `original_id` and its payload. */
  function TrashEntryOf(r: Row, trashId: int, deletedAt: string, expiresAt: string): TrashEntry {
    TrashEntry(trashId, r.id, r.content, r.image, r.typeTag, deletedAt, expiresAt)
  }

  /** The row `restore_item` inserts for a trash entry: its payload under a new id, every other column at its default. */
  function RestoredRow(e: TrashEntry, id: int, now: string): Row {
    NewRow(id, e.content, e.image, e.typeTag, now, None)
  }

  /**
   * Soft delete followed by restore: the trash is back to what it was, the entry is found
   * under the id soft delete gave it, and the restored row carries the deleted row's
   * content, image and type; pins, tags, notes, bookmarks and collection are not restored.
   */
  lemma {:induction false} SoftDeleteThenRestore(t: seq<TrashEntry>, r: Row, trashId: int, deletedAt: string, expiresAt: string,
                              id: int, now: string)
    requires TrashIdsBelow(t, trashId)
    ensures var e := TrashEntryOf(r, trashId, deletedAt, expiresAt);
      && FindTrash(t + [e], trashId) == Some(|t|)
      && TrashWithout(t + [e], trashId) == t
      && var back := RestoredRow(e, id, now);
         back.content == r.content && back.image == r.image && back.typeTag == r.typeTag
         && !back.pinned && back.tags == "" && back.note == "" && !back.bookmark && back.collectionId.None?
  {
    var e := TrashEntryOf(r, trashId, deletedAt, expiresAt);
    TrashWithoutAppended(t, e);
    assert (t + [e])[|t|] == e;
    forall i | 0 <= i < |t| ensures (t + [e])[i].id != trashId {
      assert (t + [e])[i] == t[i] && t[i] in t;
    }
  }

  /** Every collection id is positive and below the next id the table will issue. */
  predicate CollectionIdsBelow(cs: seq<Collection>, bound: int) {
    forall c :: c in cs ==> 0 < c.id < bound
  }

  /** `UPDATE history SET collection_id = NULL WHERE collection_id = ?`. */
  function Unlinked(h: seq<Row>, cid: int): seq<Row> {
    seq(|h|, i requires 0 <= i < |h| => if h[i].collectionId == Some(cid) then h[i].(collectionId := None) else h[i])
  }

  /**
   * Deleting a collection never deletes items: every row stays, at its place, with only
   * its link cleared, and no row is left in the deleted collection.
   */
  lemma {:induction false} UnlinkedKeepsItems(h: seq<Row>, cid: int, bound: int)
    requires IdsAscending(h) && IdsBelow(h, bound)
    ensures var u := Unlinked(h, cid);
      && |u| == |h| && IdsAscending(u) && IdsBelow(u, bound)
      && (forall i :: 0 <= i < |h| ==> u[i] == h[i].(collectionId := u[i].collectionId))
      && (forall x :: x in u ==> x.collectionId != Some(cid))
      && CountSel(u, Pinned) == CountSel(h, Pinned)
  {
    var u := Unlinked(h, cid);
    SameIdsKeepBounds(h, u, bound);
    CountSelSameFlags(h, u, Pinned);
  }

  /** Sequences that agree on which rows a selector picks have the same count. */
  lemma {:induction false} CountSelSameFlags(a: seq<Row>, b: seq<Row>, sel: Selector)
    requires |a| == |b| && forall i :: 0 <= i < |a| ==> (Selects(sel, a[i]) <==> Selects(sel, b[i]))
    ensures CountSel(a, sel) == CountSel(b, sel)
  {
    if a != [] {
      CountSelSameFlags(a[1..], b[1..], sel);
    }
  }

  /** `DELETE FROM collections WHERE id = ?`: every other collection stays, in order. */
  function CollectionsWithout(cs: seq<Collection>, id: int): (r: seq<Collection>)
    ensures forall c :: c in r <==> c in cs && c.id != id
  {
    if cs == [] then [] else (if cs[0].id != id then [cs[0]] else []) + CollectionsWithout(cs[1..], id)
  }

  /** `UPDATE collections SET name = ?, icon = ?, color = ? WHERE id = ?`. */
  function CollectionUpdated(cs: seq<Collection>, id: int, name: string, icon: string, color: string): seq<Collection> {
    seq(|cs|, i requires 0 <= i < |cs| =>
      if cs[i].id == id then cs[i].(name := name, icon := icon, color := color) else cs[i])
  }

  /** Renaming a collection keeps every id, so the id bound carries over. */
  lemma {:induction false} CollectionUpdatedKeepsIds(cs: seq<Collection>, id: int, name: string, icon: string, color: string, bound: int)
    requires CollectionIdsBelow(cs, bound)
    ensures CollectionIdsBelow(CollectionUpdated(cs, id, name, icon, color), bound)
  {
    var u := CollectionUpdated(cs, id, name, icon, color);
    forall c | c in u ensures 0 < c.id < bound {
      var i :| 0 <= i < |u| && u[i] == c;
      assert cs[i] in cs;
    }
  }

  // ---------------------------------------------------------------------
  // Newest-first listings and id lookups
  // ---------------------------------------------------------------------

  /** Rows in strictly descending id order (`ORDER BY id DESC`). */
  predicate IdsDescending(h: seq<Row>) {
    forall i, j :: 0 <= i < j < |h| ==> h[i].id > h[j].id
  }

  /** The rows in reverse table order. */
  function NewestFirst(h: seq<Row>): (r: seq<Row>)
    ensures forall x :: x in r <==> x in h
    ensures IdsAscending(h) ==> IdsDescending(r)
  {
    var r := seq(|h|, i requires 0 <= i < |h| => h[|h| - 1 - i]);
    assert forall x :: x in h ==> x in r by {
      forall x | x in h ensures x in r {
        var i :| 0 <= i < |h| && h[i] == x;
        assert r[|h| - 1 - i] == x;
      }
    }
    r
  }

  /** Sequences with the same ids at every index find an id at the same index. */
  lemma {:induction false} FindRowSameIds(a: seq<Row>, b: seq<Row>, id: int)
    requires |a| == |b| && forall i :: 0 <= i < |a| ==> a[i].id == b[i].id
    ensures FindRow(a, id) == FindRow(b, id)
  {
    if a != [] {
      FindRowSameIds(a[1..], b[1..], id);
    }
  }

  /** A newly pinned row gets an order above every other pinned row's, so it is listed after all of them. */
  lemma {:induction false} PinnedGoesLast(h: seq<Row>, id: int, k: int)
    requires IdsAscending(h) && 0 <= k < |h| && h[k].id == id && !h[k].pinned
    ensures var h' := Edited(h, id, SetPin(true, NextPinOrder(h)));
      && h'[k].pinned
      && forall y :: y in h' && y.pinned && y.id != id ==> ListedBefore(y, h'[k])
  {
    var h' := Edited(h, id, SetPin(true, NextPinOrder(h)));
    forall y | y in h' && y.pinned && y.id != id ensures ListedBefore(y, h'[k]) {
      var i :| 0 <= i < |h'| && h'[i] == y;
      assert h'[i] == h[i];
    }
  }
}
