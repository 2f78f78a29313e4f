/**
 * The clipboard store: the `history`, `deleted_history`, `collections` and
 * `settings` tables held as fields of one object, and the store's operations as
 * methods that update them in place.
 *
 * The methods that report a storage failure to their caller take a `fault` flag
 * that stands for it, and when it is set they return the failure value and leave
 * every table as it was. Most of them roll the transaction back; `AddTempItem` and
 * `CleanupExpiredItems` stand for a failing statement, which changes nothing. The queries take the same flag: on a storage error each returns
 * its fallback (no rows, no content, zero counts, "" or the default). The clock is a parameter (`now`, and the computed expiry time
 * where one is stored): timestamps are `%Y-%m-%d %H:%M:%S` strings, so comparing
 * them as text compares them in time.
 */
module ClipboardDatabase {
  import opened Wrappers
  import opened Text
  import opened History

  /** `sorted(tags)`: the set's members in ascending code-point order, each once. */
  method SortedTags(s: set<string>) returns (r: seq<string>)
    ensures StrictlySorted(r)
    ensures forall t :: t in r <==> t in s
  {
    r := [];
    var rest := s;
    while rest != {}
      invariant forall t :: t in s <==> t in r || t in rest
      invariant forall t :: t in r ==> t !in rest
      invariant StrictlySorted(r)
      invariant forall a, b :: a in r && b in rest ==> LexLess(a, b)
      decreases |rest|
    {
      ghost var least := LeastExists(rest);
      var m :| m in rest && forall y :: y in rest ==> y == m || LexLess(m, y);
      r := r + [m];
      rest := rest - {m};
    }
  }

  class ClipboardDB {
    /** The `history` table, in ascending id order. */
    var history: seq<Row>
    /** The `deleted_history` table (the trash). */
    var trash: seq<TrashEntry>
    /** The `collections` table. */
    var collections: seq<Collection>
    /** The `settings` table: key to stored text. */
    var settings: map<string, string>
    /** The id each table's AUTOINCREMENT issues next; ids are never reused. */
    var nextId: int
    var nextTrashId: int
    var nextCollectionId: int
    /** `add_count`: inserts since the last eviction pass, also counted up by every pass. */
    var addCount: int

    /** The tables' id invariants. */
    ghost predicate TablesValid()
      reads this
    {
      && nextId >= 1 && IdsAscending(history) && IdsBelow(history, nextId)
      && nextTrashId >= 1 && TrashIdsBelow(trash, nextTrashId)
      && nextCollectionId >= 1 && CollectionIdsBelow(collections, nextCollectionId)
    }

    /** The id invariants, and the counter below the compaction interval. */
    ghost predicate Valid()
      reads this
    {
      TablesValid() && 0 <= addCount < VACUUM_INTERVAL
    }

    /** A fresh, empty store. */
    constructor ()
      ensures Valid()
      ensures history == [] && trash == [] && collections == [] && settings == map[] && addCount == 0
    {
      history := [];
      trash := [];
      collections := [];
      settings := map[];
      nextId := 1;
      nextTrashId := 1;
      nextCollectionId := 1;
      addCount := 0;
    }

    // -------------------------------------------------------------------
    // Inserting and evicting
    // -------------------------------------------------------------------

    /**
     * `add_item`: unless the item is an image, drop the oldest unpinned row with the
     * same content (whatever its type); insert the item under the next id; every
     * CLEANUP_INTERVAL-th insert runs the eviction pass and resets the counter.
     * The new row is the newest one left in the table.
     */
    method AddItem(content: string, image: Option<Bytes>, typeTag: string, now: string, fault: bool)
      returns (id: Option<int>)
      requires Valid()
      modifies this
      ensures Valid()
      ensures fault ==> id.None? && history == old(history) && nextId == old(nextId) && addCount == old(addCount)
      ensures !fault ==> id == Some(old(nextId)) && nextId == old(nextId) + 1
      ensures !fault ==>
        var added := Deduped(old(history), content, typeTag) + [NewRow(old(nextId), content, image, typeTag, now, None)];
        if old(addCount) + 1 >= CLEANUP_INTERVAL
        then history == Evicted(added, MaxHistoryFrom(settings)) && addCount == 0
        else history == added && addCount == old(addCount) + 1
      ensures !fault ==> history != [] && history[|history| - 1] == NewRow(old(nextId), content, image, typeTag, now, None)
      ensures trash == old(trash) && collections == old(collections) && settings == old(settings)
      ensures nextTrashId == old(nextTrashId) && nextCollectionId == old(nextCollectionId)
    {
      if fault {
        return None;
      }
      var row := NewRow(nextId, content, image, typeTag, now, None);
      DedupedKeepsIds(history, content, typeTag, row, nextId);
      history := Deduped(history, content, typeTag) + [row];
      id := Some(nextId);
      nextId := nextId + 1;
      addCount := addCount + 1;
      if addCount >= CLEANUP_INTERVAL {
        EvictedKeepsNewest(history, MaxHistoryFrom(settings));
        Cleanup(None);
        addCount := 0;
      }
    }

    /**
     * `cleanup`: keep at most 20 unpinned images, then at most `cap` unpinned rows
     * (the given cap, or the one from the settings), removing the oldest first; count
     * the pass, restarting the count every VACUUM_INTERVAL passes. Pinned rows are
     * never removed.
     */
    method Cleanup(maxHistory: Option<int>)
      requires TablesValid() && addCount >= 0
      modifies this
      ensures Valid()
      ensures var cap := if maxHistory.Some? then maxHistory.value else MaxHistoryFrom(settings);
        && history == Evicted(old(history), cap)
        && CountSel(history, UnpinnedImage) <= MAX_IMAGE_HISTORY
        && CountSel(history, Unpinned) <= Max(cap, 0)
        && (forall x :: x in old(history) && x.pinned ==> x in history)
      ensures addCount == if old(addCount) + 1 >= VACUUM_INTERVAL then 0 else old(addCount) + 1
      ensures trash == old(trash) && collections == old(collections) && settings == old(settings)
      ensures nextId == old(nextId) && nextTrashId == old(nextTrashId) && nextCollectionId == old(nextCollectionId)
    {
      var cap := if maxHistory.Some? then maxHistory.value else MaxHistoryFrom(settings);
      EvictedBounds(history, cap);
      EvictedKeepsIds(history, cap, nextId);
      history := Evicted(history, cap);
      addCount := addCount + 1;
      if addCount >= VACUUM_INTERVAL {
        addCount := 0;
      }
    }

    /** `add_temp_item`: insert under the next id with an expiry time, without de-duplicating or counting. */
    method AddTempItem(content: string, image: Option<Bytes>, typeTag: string, now: string, expiresAt: string, fault: bool)
      returns (id: Option<int>)
      requires Valid()
      modifies this
      ensures Valid()
      ensures fault ==> id.None? && history == old(history) && nextId == old(nextId)
      ensures !fault ==> (id == Some(old(nextId)) && nextId == old(nextId) + 1
                          && history == old(history) + [NewRow(old(nextId), content, image, typeTag, now, Some(expiresAt))])
      ensures trash == old(trash) && collections == old(collections) && settings == old(settings)
      ensures addCount == old(addCount) && nextTrashId == old(nextTrashId) && nextCollectionId == old(nextCollectionId)
    {
      if fault {
        return None;
      }
      var row := NewRow(nextId, content, image, typeTag, now, Some(expiresAt));
      AppendKeepsIds(history, row, nextId);
      history := history + [row];
      id := Some(nextId);
      nextId := nextId + 1;
    }

    /**
     * `cleanup_expired_items`: delete the rows whose expiry time is before `now`; return
     * how many, or 0 when the delete fails.
     */
    method CleanupExpiredItems(now: string, fault: bool) returns (deleted: int)
      requires Valid()
      modifies this
      ensures Valid()
      ensures fault ==> deleted == 0 && history == old(history)
      ensures !fault ==> history == RemoveWhere(old(history), ExpiredBefore(now))
      ensures !fault ==> deleted == CountSel(old(history), ExpiredBefore(now)) == |old(history)| - |history|
      ensures trash == old(trash) && collections == old(collections) && settings == old(settings)
      ensures nextId == old(nextId) && addCount == old(addCount)
      ensures nextTrashId == old(nextTrashId) && nextCollectionId == old(nextCollectionId)
    {
      if fault {
        return 0;
      }
      deleted := CountSel(history, ExpiredBefore(now));
      history := RemoveWhere(history, ExpiredBefore(now));
    }

    // -------------------------------------------------------------------
    // Listings
    // -------------------------------------------------------------------

    /**
     * `get_items`: exactly the rows whose content contains the search text and that
     * pass the filter the caption selects, pinned first, then by pin order, then newest
     * first. By ListingUnique this determines the result completely. No rows on a
     * storage error.
     */
    method GetItems(search: string, typeFilter: string, fault: bool) returns (rows: seq<Row>)
      requires Valid()
      ensures fault ==> rows == []
      ensures SortedForListing(rows)
      ensures forall x :: x in rows <==> !fault && x in history && Listed(x, search, FilterOf(typeFilter))
    {
      if fault {
        return [];
      }
      var f := FilterOf(typeFilter);
      var matching := Keep(history, (x: Row) => Listed(x, search, f));
      ListingSorted(matching);
      rows := Listing(matching);
    }

    /** `get_items_by_collection`: the rows linked to the collection, in listing order; none on a storage error. */
    method GetItemsByCollection(cid: int, fault: bool) returns (rows: seq<Row>)
      requires Valid()
      ensures fault ==> rows == []
      ensures SortedForListing(rows)
      ensures forall x :: x in rows <==> !fault && x in history && x.collectionId == Some(cid)
    {
      if fault {
        return [];
      }
      var matching := Keep(history, (x: Row) => x.collectionId == Some(cid));
      ListingSorted(matching);
      rows := Listing(matching);
    }

    /**
     * `get_items_by_tag`: nothing for a tag that normalizes to empty; otherwise the rows
     * whose normalized tag text holds the normalized tag as a comma-delimited run,
     * in listing order. No rows on a storage error.
     */
    method GetItemsByTag(tag: string, fault: bool) returns (rows: seq<Row>)
      requires Valid()
      ensures NormalizeQueryTag(tag) == "" || fault ==> rows == []
      ensures SortedForListing(rows)
      ensures forall x :: x in rows <==>
        !fault && x in history && NormalizeQueryTag(tag) != "" && TagMatches(x, NormalizeQueryTag(tag))
    {
      var q := NormalizeQueryTag(tag);
      if q == "" || fault {
        return [];
      }
      var matching := Keep(history, (x: Row) => TagMatches(x, q));
      ListingSorted(matching);
      rows := Listing(matching);
    }

    /** `get_bookmarked_items`: the bookmarked rows, newest first; none on a storage error. */
    method GetBookmarkedItems(fault: bool) returns (rows: seq<Row>)
      requires Valid()
      ensures fault ==> rows == []
      ensures IdsDescending(rows)
      ensures forall x :: x in rows <==> !fault && x in history && x.bookmark
    {
      if fault {
        return [];
      }
      rows := NewestFirst(Keep(history, (x: Row) => x.bookmark));
    }

    /** `get_all_text_content`: the rows that are not images, newest first; none on a storage error. */
    method GetAllTextContent(fault: bool) returns (rows: seq<Row>)
      requires Valid()
      ensures fault ==> rows == []
      ensures IdsDescending(rows)
      ensures forall x :: x in rows <==> !fault && x in history && x.typeTag != "IMAGE"
    {
      if fault {
        return [];
      }
      rows := NewestFirst(Keep(history, (x: Row) => x.typeTag != "IMAGE"));
    }

    /**
     * `get_content`: the content, image and type of the row with that id, if there is
     * one; nothing on a storage error.
     */
    method GetContent(id: int, fault: bool) returns (c: Option<(string, Option<Bytes>, string)>)
      requires Valid()
      ensures c.None? <==> fault || forall x :: x in history ==> x.id != id
      ensures c.Some? ==> exists x :: x in history && x.id == id && c.value == (x.content, x.image, x.typeTag)
    {
      var k := FindRow(history, id);
      if k.None? || fault {
        return None;
      }
      var r := history[k.value];
      return Some((r.content, r.image, r.typeTag));
    }

    /**
     * `get_statistics`: the row count, the pinned count, and the count of each type
     * present; all zero on a storage error.
     */
    method GetStatistics(fault: bool) returns (total: int, pinned: int, byType: map<string, nat>)
      requires Valid()
      ensures fault ==> total == 0 && pinned == 0 && byType == map[]
      ensures !fault ==> total == |history| && pinned == CountSel(history, Pinned)
      ensures 0 <= pinned <= total
      ensures forall t :: t in byType <==> !fault && exists i :: 0 <= i < |history| && history[i].typeTag == t
      ensures forall t :: t in byType ==> byType[t] == CountSel(history, OfType(t))
    {
      if fault {
        return 0, 0, map[];
      }
      total := |history|;
      pinned := CountSel(history, Pinned);
      byType := TypeCounts(history);
      forall t | true
        ensures t in byType <==> exists i :: 0 <= i < |history| && history[i].typeTag == t
        ensures t in byType ==> byType[t] == CountSel(history, OfType(t))
      {
        TypeCountsAt(history, t);
      }
    }

    /** `get_today_count`: the rows whose timestamp starts with the given day; 0 on a storage error. */
    method GetTodayCount(today: string, fault: bool) returns (n: int)
      requires Valid()
      ensures n == if fault then 0 else CountSel(history, CreatedOn(today))
      ensures 0 <= n <= |history|
    {
      if fault {
        return 0;
      }
      n := CountSel(history, CreatedOn(today));
    }

    // -------------------------------------------------------------------
    // Pins, bookmarks, use counts, deletion
    // -------------------------------------------------------------------

    /** `update_pin_order`: set the pin order of the row with that id, pinned or not. */
    method UpdatePinOrder(id: int, order: int, fault: bool) returns (ok: bool)
      requires Valid()
      modifies this
      ensures Valid()
      ensures ok == !fault
      ensures history == if ok then Edited(old(history), id, SetPinOrder(order)) else old(history)
      ensures trash == old(trash) && collections == old(collections) && settings == old(settings)
      ensures nextId == old(nextId) && addCount == old(addCount)
      ensures nextTrashId == old(nextTrashId) && nextCollectionId == old(nextCollectionId)
    {
      if fault {
        return false;
      }
      SameIdsKeepBounds(history, Edited(history, id, SetPinOrder(order)), nextId);
      history := Edited(history, id, SetPinOrder(order));
      return true;
    }

    /**
     * `update_pin_orders`, all or nothing: an empty list succeeds and changes nothing;
     * distinct ids that all name pinned rows get their list positions as pin orders;
     * a repeated id, an id of a missing or unpinned row, or a storage fault leaves
     * every row as it was and reports failure.
     */
    method UpdatePinOrders(ids: seq<int>, fault: bool) returns (ok: bool)
      requires Valid()
      modifies this
      ensures Valid()
      ensures ok <==> PinOrdersAccepted(old(history), ids) && (ids == [] || !fault)
      ensures history == if ok then WithPinOrders(old(history), ids) else old(history)
      ensures trash == old(trash) && collections == old(collections) && settings == old(settings)
      ensures nextId == old(nextId) && addCount == old(addCount)
      ensures nextTrashId == old(nextTrashId) && nextCollectionId == old(nextCollectionId)
    {
      if ids == [] {
        assert WithPinOrders(history, ids) == history;
        return true;
      }
      if !Distinct(ids) {
        return false;
      }
      var saved := history;
      var n := 0;
      while n < |ids|
        invariant 0 <= n <= |ids|
        invariant history == WithPinOrders(saved, ids[..n])
        invariant forall j :: 0 <= j < n ==> IsPinnedId(saved, ids[j])
        invariant trash == old(trash) && collections == old(collections) && settings == old(settings)
        invariant nextId == old(nextId) && addCount == old(addCount)
        invariant nextTrashId == old(nextTrashId) && nextCollectionId == old(nextCollectionId)
      {
        PinOrdersLoopStep(saved, ids, n);
        var k := FindRow(history, ids[n]);
        if k.None? || !history[k.value].pinned {
          history := saved;
          return false;
        }
        history := history[k.value := history[k.value].(pinOrder := n)];
        n := n + 1;
      }
      if fault {
        history := saved;
        return false;
      }
      assert ids[..n] == ids;
      WithPinOrdersOnlyOrders(saved, ids);
      SameIdsKeepBounds(saved, history, nextId);
      return true;
    }

    /**
     * `toggle_pin`: a pinned row is unpinned with pin order 0 and the result is 0; an
     * unpinned row is pinned after every pinned row (order one above their largest, or
     * 0 if none) and the result is 1; a missing id or a fault gives 0 and no change.
     */
    method TogglePin(id: int, fault: bool) returns (status: int)
      requires Valid()
      modifies this
      ensures Valid()
      ensures var k := FindRow(old(history), id);
        && (k.None? || fault ==> status == 0 && history == old(history))
        && (k.Some? && !fault && old(history)[k.value].pinned ==>
              status == 0 && history == Edited(old(history), id, SetPin(false, 0)))
        && (k.Some? && !fault && !old(history)[k.value].pinned ==>
              status == 1 && history == Edited(old(history), id, SetPin(true, NextPinOrder(old(history)))))
      ensures trash == old(trash) && collections == old(collections) && settings == old(settings)
      ensures nextId == old(nextId) && addCount == old(addCount)
      ensures nextTrashId == old(nextTrashId) && nextCollectionId == old(nextCollectionId)
    {
      var k := FindRow(history, id);
      if k.None? || fault {
        return 0;
      }
      var e := if history[k.value].pinned then SetPin(false, 0) else SetPin(true, NextPinOrder(history));
      status := if history[k.value].pinned then 0 else 1;
      SameIdsKeepBounds(history, Edited(history, id, e), nextId);
      history := Edited(history, id, e);
    }

    /** `toggle_bookmark`: flip the bookmark and return the new flag as 0/1; 0 and no change for a missing id or a fault. */
    method ToggleBookmark(id: int, fault: bool) returns (status: int)
      requires Valid()
      modifies this
      ensures Valid()
      ensures var k := FindRow(old(history), id);
        && (k.None? || fault ==> status == 0 && history == old(history))
        && (k.Some? && !fault ==>
              var on := !old(history)[k.value].bookmark;
              status == (if on then 1 else 0) && history == Edited(old(history), id, SetBookmark(on)))
      ensures trash == old(trash) && collections == old(collections) && settings == old(settings)
      ensures nextId == old(nextId) && addCount == old(addCount)
      ensures nextTrashId == old(nextTrashId) && nextCollectionId == old(nextCollectionId)
    {
      var k := FindRow(history, id);
      if k.None? || fault {
        return 0;
      }
      var on := !history[k.value].bookmark;
      status := if on then 1 else 0;
      SameIdsKeepBounds(history, Edited(history, id, SetBookmark(on)), nextId);
      history := Edited(history, id, SetBookmark(on));
    }

    /** `increment_use_count`: one more use for the row with that id, if any. */
    method IncrementUseCount(id: int)
      requires Valid()
      modifies this
      ensures Valid()
      ensures history == Edited(old(history), id, BumpUseCount)
      ensures trash == old(trash) && collections == old(collections) && settings == old(settings)
      ensures nextId == old(nextId) && addCount == old(addCount)
      ensures nextTrashId == old(nextTrashId) && nextCollectionId == old(nextCollectionId)
    {
      SameIdsKeepBounds(history, Edited(history, id, BumpUseCount), nextId);
      history := Edited(history, id, BumpUseCount);
    }

    /** `delete_item`: remove the row with that id, if any. */
    method DeleteItem(id: int)
      requires Valid()
      modifies this
      ensures Valid()
      ensures history == RemoveWhere(old(history), WithId(id))
      ensures trash == old(trash) && collections == old(collections) && settings == old(settings)
      ensures nextId == old(nextId) && addCount == old(addCount)
      ensures nextTrashId == old(nextTrashId) && nextCollectionId == old(nextCollectionId)
    {
      history := RemoveWhere(history, WithId(id));
    }

    /** `clear_all`: remove every unpinned row; exactly the pinned rows remain. */
    method ClearAll()
      requires Valid()
      modifies this
      ensures Valid()
      ensures history == RemoveWhere(old(history), Unpinned)
      ensures forall x :: x in history <==> x in old(history) && x.pinned
      ensures trash == old(trash) && collections == old(collections) && settings == old(settings)
      ensures nextId == old(nextId) && addCount == old(addCount)
      ensures nextTrashId == old(nextTrashId) && nextCollectionId == old(nextCollectionId)
    {
      history := RemoveWhere(history, Unpinned);
    }

    // -------------------------------------------------------------------
    // Settings, tags, notes, titles
    // -------------------------------------------------------------------

    /** `get_setting`: the stored text, or the default when the key is absent or the read fails. */
    method GetSetting(key: string, default: string, fault: bool) returns (v: string)
      ensures !fault && key in settings ==> v == settings[key]
      ensures fault || key !in settings ==> v == default
    {
      v := if key in settings && !fault then settings[key] else default;
    }

    /** `set_setting`: store the value's text under the key, replacing any earlier value. */
    method SetSetting(key: string, value: string)
      requires Valid()
      modifies this
      ensures Valid()
      ensures settings == old(settings)[key := value]
      ensures history == old(history) && trash == old(trash) && collections == old(collections)
      ensures nextId == old(nextId) && addCount == old(addCount)
      ensures nextTrashId == old(nextTrashId) && nextCollectionId == old(nextCollectionId)
    {
      settings := settings[key := value];
    }

    /** `get_item_tags`: the row's tag text, or "" for a missing row or a storage error. */
    method GetItemTags(id: int, fault: bool) returns (tags: string)
      requires Valid()
      ensures fault || (forall x :: x in history ==> x.id != id) ==> tags == ""
      ensures forall x :: !fault && x in history && x.id == id ==> tags == x.tags
    {
      var k := FindRow(history, id);
      tags := if k.Some? && !fault then history[k.value].tags else "";
      if k.Some? && !fault {
        forall x | x in history && x.id == id ensures tags == x.tags {
          var i :| 0 <= i < |history| && history[i] == x;
          FindRowUnique(history, id, i);
        }
      }
    }

    /** `set_item_tags`: replace the row's tag text. */
    method SetItemTags(id: int, tags: string)
      requires Valid()
      modifies this
      ensures Valid()
      ensures history == Edited(old(history), id, SetTags(tags))
      ensures trash == old(trash) && collections == old(collections) && settings == old(settings)
      ensures nextId == old(nextId) && addCount == old(addCount)
      ensures nextTrashId == old(nextTrashId) && nextCollectionId == old(nextCollectionId)
    {
      SameIdsKeepBounds(history, Edited(history, id, SetTags(tags)), nextId);
      history := Edited(history, id, SetTags(tags));
    }

    /**
     * `get_all_tags`: every tag used by some row (the stripped non-empty pieces of the
     * comma-separated tag texts), in code-point order, each once; none on a storage error.
     */
    method GetAllTags(fault: bool) returns (tags: seq<string>)
      requires Valid()
      ensures fault ==> tags == []
      ensures StrictlySorted(tags)
      ensures forall t :: t in tags <==> !fault && t in AllTags(history)
      ensures forall t :: t in tags <==> !fault && exists x :: x in history && t in RowTags(x)
    {
      if fault {
        return [];
      }
      var all: set<string> := {};
      var i := 0;
      while i < |history|
        invariant 0 <= i <= |history|
        invariant all == AllTags(history[..i])
      {
        var r := history[i];
        AllTagsStep(history, i);
        if r.tags != "" {
          var pieces := SplitOn(r.tags, ',');
          ghost var before := all;
          var j := 0;
          while j < |pieces|
            invariant 0 <= j <= |pieces|
            invariant all == before + PieceTags(pieces[..j])
          {
            var tag := Strip(pieces[j]);
            PieceTagsStep(pieces, j);
            if tag != "" {
              all := all + {tag};
            }
            j := j + 1;
          }
          assert pieces[..j] == pieces;
        }
        i := i + 1;
      }
      assert history[..i] == history;
      tags := SortedTags(all);
      forall t ensures t in tags <==> exists x :: x in history && t in RowTags(x) {
        AllTagsIff(history, t);
      }
    }

    /** `update_url_title`: cache the page title on the row. */
    method UpdateUrlTitle(id: int, title: string, fault: bool) returns (ok: bool)
      requires Valid()
      modifies this
      ensures Valid()
      ensures ok == !fault
      ensures history == if ok then Edited(old(history), id, SetUrlTitle(title)) else old(history)
      ensures trash == old(trash) && collections == old(collections) && settings == old(settings)
      ensures nextId == old(nextId) && addCount == old(addCount)
      ensures nextTrashId == old(nextTrashId) && nextCollectionId == old(nextCollectionId)
    {
      if fault {
        return false;
      }
      SameIdsKeepBounds(history, Edited(history, id, SetUrlTitle(title)), nextId);
      history := Edited(history, id, SetUrlTitle(title));
      return true;
    }

    /** `set_note`: replace the row's note. */
    method SetNote(id: int, note: string)
      requires Valid()
      modifies this
      ensures Valid()
      ensures history == Edited(old(history), id, Edit.SetNote(note))
      ensures trash == old(trash) && collections == old(collections) && settings == old(settings)
      ensures nextId == old(nextId) && addCount == old(addCount)
      ensures nextTrashId == old(nextTrashId) && nextCollectionId == old(nextCollectionId)
    {
      SameIdsKeepBounds(history, Edited(history, id, Edit.SetNote(note)), nextId);
      history := Edited(history, id, Edit.SetNote(note));
    }

    /** `get_note`: the row's note, or "" for a missing row or a storage error. */
    method GetNote(id: int, fault: bool) returns (note: string)
      requires Valid()
      ensures fault || (forall x :: x in history ==> x.id != id) ==> note == ""
      ensures forall x :: !fault && x in history && x.id == id ==> note == x.note
    {
      var k := FindRow(history, id);
      note := if k.Some? && !fault then history[k.value].note else "";
      if k.Some? && !fault {
        forall x | x in history && x.id == id ensures note == x.note {
          var i :| 0 <= i < |history| && history[i] == x;
          FindRowUnique(history, id, i);
        }
      }
    }

    // -------------------------------------------------------------------
    // Collections
    // -------------------------------------------------------------------

    /** `add_collection`: insert under the next collection id and return it. */
    method AddCollection(name: string, icon: string, color: string, now: string, fault: bool)
      returns (id: Option<int>)
      requires Valid()
      modifies this
      ensures Valid()
      ensures fault ==> id.None? && collections == old(collections) && nextCollectionId == old(nextCollectionId)
      ensures !fault ==> (id == Some(old(nextCollectionId)) && nextCollectionId == old(nextCollectionId) + 1
                          && collections == old(collections) + [Collection(old(nextCollectionId), name, icon, color, now)])
      ensures history == old(history) && trash == old(trash) && settings == old(settings)
      ensures nextId == old(nextId) && addCount == old(addCount) && nextTrashId == old(nextTrashId)
    {
      if fault {
        return None;
      }
      collections := collections + [Collection(nextCollectionId, name, icon, color, now)];
      id := Some(nextCollectionId);
      nextCollectionId := nextCollectionId + 1;
    }

    /** `update_collection`: rename and restyle the collection with that id, if any. */
    method UpdateCollection(cid: int, name: string, icon: string, color: string, fault: bool) returns (ok: bool)
      requires Valid()
      modifies this
      ensures Valid()
      ensures ok == !fault
      ensures collections == if ok then CollectionUpdated(old(collections), cid, name, icon, color) else old(collections)
      ensures history == old(history) && trash == old(trash) && settings == old(settings)
      ensures nextId == old(nextId) && addCount == old(addCount)
      ensures nextTrashId == old(nextTrashId) && nextCollectionId == old(nextCollectionId)
    {
      if fault {
        return false;
      }
      CollectionUpdatedKeepsIds(collections, cid, name, icon, color, nextCollectionId);
      collections := CollectionUpdated(collections, cid, name, icon, color);
      return true;
    }

    /**
     * `delete_collection`: unlink every row from the collection and delete the
     * collection; no row is deleted.
     */
    method DeleteCollection(cid: int, fault: bool) returns (ok: bool)
      requires Valid()
      modifies this
      ensures Valid()
      ensures ok == !fault
      ensures ok ==> history == Unlinked(old(history), cid) && collections == CollectionsWithout(old(collections), cid)
      ensures ok ==> |history| == |old(history)| && forall x :: x in history ==> x.collectionId != Some(cid)
      ensures !ok ==> history == old(history) && collections == old(collections)
      ensures trash == old(trash) && settings == old(settings)
      ensures nextId == old(nextId) && addCount == old(addCount)
      ensures nextTrashId == old(nextTrashId) && nextCollectionId == old(nextCollectionId)
    {
      if fault {
        return false;
      }
      UnlinkedKeepsItems(history, cid, nextId);
      history := Unlinked(history, cid);
      collections := CollectionsWithout(collections, cid);
      return true;
    }

    /** `assign_to_collection`: link the row to a collection, or unlink it with `None`. */
    method AssignToCollection(id: int, cid: Option<int>, fault: bool) returns (ok: bool)
      requires Valid()
      modifies this
      ensures Valid()
      ensures ok == !fault
      ensures history == if ok then Edited(old(history), id, SetCollection(cid)) else old(history)
      ensures trash == old(trash) && collections == old(collections) && settings == old(settings)
      ensures nextId == old(nextId) && addCount == old(addCount)
      ensures nextTrashId == old(nextTrashId) && nextCollectionId == old(nextCollectionId)
    {
      if fault {
        return false;
      }
      SameIdsKeepBounds(history, Edited(history, id, SetCollection(cid)), nextId);
      history := Edited(history, id, SetCollection(cid));
      return true;
    }

    // -------------------------------------------------------------------
    // Trash
    // -------------------------------------------------------------------

    /**
     * `soft_delete`: move the row with that id to the trash (its id as the original id,
     * its content, image and type, the deletion time and the expiry time) and report
     * success; a missing id or a fault reports failure and changes nothing.
     */
    method SoftDelete(id: int, now: string, expiresAt: string, fault: bool) returns (ok: bool)
      requires Valid()
      modifies this
      ensures Valid()
      ensures var k := FindRow(old(history), id);
        && (ok <==> k.Some? && !fault)
        && (ok ==> history == RemoveWhere(old(history), WithId(id))
                   && trash == old(trash) + [TrashEntryOf(old(history)[k.value], old(nextTrashId), now, expiresAt)]
                   && nextTrashId == old(nextTrashId) + 1)
      ensures !ok ==> history == old(history) && trash == old(trash) && nextTrashId == old(nextTrashId)
      ensures collections == old(collections) && settings == old(settings)
      ensures nextId == old(nextId) && addCount == old(addCount) && nextCollectionId == old(nextCollectionId)
    {
      var k := FindRow(history, id);
      if k.None? || fault {
        return false;
      }
      trash := trash + [TrashEntryOf(history[k.value], nextTrashId, now, expiresAt)];
      nextTrashId := nextTrashId + 1;
      history := RemoveWhere(history, WithId(id));
      return true;
    }

    /**
     * `restore_item`: re-insert the trash entry's content, image and type under the
     * next id (without de-duplicating) and delete the entry; a missing entry or a fault
     * reports failure and changes nothing.
     */
    method RestoreItem(deletedId: int, now: string, fault: bool) returns (ok: bool)
      requires Valid()
      modifies this
      ensures Valid()
      ensures var k := FindTrash(old(trash), deletedId);
        && (ok <==> k.Some? && !fault)
        && (ok ==> history == old(history) + [RestoredRow(old(trash)[k.value], old(nextId), now)]
                   && trash == TrashWithout(old(trash), deletedId)
                   && nextId == old(nextId) + 1)
      ensures !ok ==> history == old(history) && trash == old(trash) && nextId == old(nextId)
      ensures collections == old(collections) && settings == old(settings)
      ensures addCount == old(addCount) && nextTrashId == old(nextTrashId) && nextCollectionId == old(nextCollectionId)
    {
      var k := FindTrash(trash, deletedId);
      if k.None? || fault {
        return false;
      }
      var row := RestoredRow(trash[k.value], nextId, now);
      AppendKeepsIds(history, row, nextId);
      history := history + [row];
      nextId := nextId + 1;
      trash := TrashWithout(trash, deletedId);
      return true;
    }

    /** `empty_trash`: delete every trash entry. */
    method EmptyTrash()
      requires Valid()
      modifies this
      ensures Valid()
      ensures trash == []
      ensures history == old(history) && collections == old(collections) && settings == old(settings)
      ensures nextId == old(nextId) && addCount == old(addCount)
      ensures nextTrashId == old(nextTrashId) && nextCollectionId == old(nextCollectionId)
    {
      trash := [];
    }

    /** `cleanup_expired_trash`: delete the trash entries whose expiry time is before `now`. */
    method CleanupExpiredTrash(now: string)
      requires Valid()
      modifies this
      ensures Valid()
      ensures trash == TrashUnexpired(old(trash), now)
      ensures forall e :: e in trash <==> e in old(trash) && !LexLess(e.expiresAt, now)
      ensures history == old(history) && collections == old(collections) && settings == old(settings)
      ensures nextId == old(nextId) && addCount == old(addCount)
      ensures nextTrashId == old(nextTrashId) && nextCollectionId == old(nextCollectionId)
    {
      trash := TrashUnexpired(trash, now);
    }
  }
}
