/**
 * The record store and the three mutations of the Mutation type: `create`
 * (CRUD.go:212-221), `update` (CRUD.go:238-256) and `delete`
 * (CRUD.go:267-278).
 *
 * The store is the global slice `medias`: a backing array and a length. The
 * mutations are methods of `MediaStore` that change the array in place; each
 * is proved against a function on sequences, and what the service promises
 * is proved about those functions.
 *
 * `delete` is modelled as written: its `range` loop runs over the length the
 * slice had when the loop started, reads the backing array that the splice
 * shifts left under it, and indexes `medias[i]` against the shrunken length.
 * A record right after a removed one is therefore skipped, and a match in the
 * stale tail of the array panics.
 */
module Store {
  import opened Wrappers
  import opened Catalog

  // ----- create -----

  /**
   * The record `create` builds, or its panic: `params.Args["name"].(string)`
   * and `params.Args["info"].(string)` are assertions without comma-ok, and
   * the schema declares `type`, not `info`.
   */
  function NewMedia(args: Args, id: int): Outcome
  {
    match StringArg(args, "name")
    case None => Panic(NotAString("name"))
    case Some(name) =>
      match StringArg(args, "info")
      case None => Panic(NotAString("info"))
      case Some(info) => Ok(Media(id, name, info))
  }

  /** Called with only the declared arguments `name` and `type`, `create` always panics: it reads `info`. */
  lemma CreateNeedsUndeclaredInfo(args: Args, id: int)
    requires args.Keys <= {"name", "type"}
    ensures NewMedia(args, id).Panic?
    ensures StringArg(args, "name").Some? ==> NewMedia(args, id) == Panic(NotAString("info"))
  {
    assert "info" !in args;
  }

  /** After an append, a lookup by the new record's id finds it unless an older record has that id. */
  lemma CreateThenFind(medias: seq<Media>, m: Media)
    ensures (forall k :: 0 <= k < |medias| ==> medias[k].ID != m.ID) ==> FindById(medias + [m], m.ID) == Some(m)
    ensures (exists k :: 0 <= k < |medias| && medias[k].ID == m.ID) ==> FindById(medias + [m], m.ID) == FindById(medias, m.ID)
  {
    var s := medias + [m];
    match FirstIndex(medias, (x: Media) => x.ID == m.ID)
    case None =>
      FirstIndexAt(s, (x: Media) => x.ID == m.ID, |medias|);
    case Some(k) =>
      FirstIndexAt(s, (x: Media) => x.ID == m.ID, k);
  }

  // ----- update -----

  /** `if nameOk { .Name = name }; if typeOK { .Type = mediaType }`. */
  function Patch(m: Media, name: Option<string>, typ: Option<string>): Media
  {
    m.(Name := if name.Some? then name.value else m.Name,
       Type := if typ.Some? then typ.value else m.Type)
  }

  /** A store after a mutation, and the record the mutation answers with. */
  datatype Changed = Changed(medias: seq<Media>, record: Media)

  /** `update`: patch the first record with the id and answer with it; no such record, no change and the zero record. */
  function UpdateFirst(medias: seq<Media>, id: int, name: Option<string>, typ: Option<string>): Changed
  {
    match FirstIndex(medias, (m: Media) => m.ID == id)
    case None => Changed(medias, ZeroMedia)
    case Some(k) =>
      var p := Patch(medias[k], name, typ);
      Changed(medias[k := p], p)
  }

  /**
   * `update` touches only the first record with the id: its name only if a
   * name was supplied, its type only if a type was; the length and every
   * other record stay as they were. With no such record nothing changes and
   * the answer is the zero record.
   */
  lemma UpdateChangesFirstMatchOnly(medias: seq<Media>, id: int, name: Option<string>, typ: Option<string>)
    ensures var u := UpdateFirst(medias, id, name, typ);
            |u.medias| == |medias| &&
            ((forall k :: 0 <= k < |medias| ==> medias[k].ID != id) ==> u == Changed(medias, ZeroMedia)) &&
            forall k :: FirstWithId(medias, id, k) ==>
              u.medias[k] == u.record && u.record.ID == id &&
              u.record.Name == (if name.Some? then name.value else medias[k].Name) &&
              u.record.Type == (if typ.Some? then typ.value else medias[k].Type) &&
              forall j :: 0 <= j < |medias| && j != k ==> u.medias[j] == medias[j]
  {
    match FirstIndex(medias, (m: Media) => m.ID == id)
    case None =>
    case Some(k) =>
      forall k' | FirstWithId(medias, id, k') ensures k' == k { }
  }

  /** A lookup by id after `update` finds the updated record. */
  lemma UpdateThenFind(medias: seq<Media>, id: int, name: Option<string>, typ: Option<string>)
    requires exists k :: 0 <= k < |medias| && medias[k].ID == id
    ensures var u := UpdateFirst(medias, id, name, typ);
            FindById(u.medias, id) == Some(u.record)
  {
    var u := UpdateFirst(medias, id, name, typ);
    var k := FirstIndex(medias, (m: Media) => m.ID == id).value;
    FirstIndexAt(u.medias, (m: Media) => m.ID == id, k);
  }

  /** With neither a name nor a type, `update` changes nothing and answers with the first record with the id. */
  lemma UpdateWithoutFields(medias: seq<Media>, id: int)
    ensures UpdateFirst(medias, id, None, None).medias == medias
    ensures UpdateFirst(medias, id, None, None).record ==
            match FindById(medias, id) case Some(m) => m case None => ZeroMedia
  {
    match FirstIndex(medias, (m: Media) => m.ID == id)
    case None =>
    case Some(k) =>
      FirstIndexAt(medias, (m: Media) => m.ID == id, k);
  }

  // ----- delete, as written -----

  /**
   * The backing array after `medias = append(medias[:i], medias[i+1:]...)`
   * on a slice of length `len`: the cells after `i` move one to the left and
   * the last live cell keeps its old value.
   */
  function Splice(cells: seq<Media>, i: nat, len: nat): (r: seq<Media>)
    requires i < len <= |cells|
    ensures |r| == |cells|
  {
    cells[..i] + cells[i + 1..len] + cells[len - 1..]
  }

  /** The live records after a splice are those before it less one copy of the spliced record. */
  lemma SpliceRemovesOne(cells: seq<Media>, i: nat, len: nat)
    requires i < len <= |cells|
    ensures Splice(cells, i, len)[..len - 1] == cells[..i] + cells[i + 1..len]
    ensures Splice(cells, i, len)[..i] == cells[..i]
    ensures multiset(cells[..len]) == multiset(Splice(cells, i, len)[..len - 1]) + multiset{cells[i]}
  {
    assert Splice(cells, i, len)[..len - 1] == cells[..i] + cells[i + 1..len];
    assert cells[..len] == cells[..i] + [cells[i]] + cells[i + 1..len];
  }

  /** Splicing out a record with the id leaves the live records with other ids as they were. */
  lemma SpliceKeepsOthers(cells: seq<Media>, i: nat, len: nat, id: int)
    requires i < len <= |cells| && cells[i].ID == id
    ensures OtherIds(Splice(cells, i, len)[..len - 1], id) == OtherIds(cells[..len], id)
  {
    SpliceRemovesOne(cells, i, len);
    assert cells[..len] == cells[..i] + [cells[i]] + cells[i + 1..len];
    OtherIdsConcat(cells[..i] + [cells[i]], cells[i + 1..len], id);
    OtherIdsConcat(cells[..i], [cells[i]], id);
    OtherIdsConcat(cells[..i], cells[i + 1..len], id);
  }

  /** Where the loop of `delete` ends: the backing array, the slice length, and the answer. */
  datatype SweepEnd = SweepEnd(cells: seq<Media>, len: nat, outcome: Outcome)

  /**
   * The loop of `delete` from index `i` on. The range length is the size of
   * `cells`, fixed when the loop started; `len` is the current slice length,
   * and `found` the record last matched.
   */
  function Sweep(cells: seq<Media>, len: nat, found: Media, id: int, i: nat): (r: SweepEnd)
    requires len <= |cells| && i <= |cells|
    ensures |r.cells| == |cells| && r.len <= len
    decreases |cells| - i
  {
    if i == |cells| then SweepEnd(cells, len, Ok(found))
    else if cells[i].ID != id then Sweep(cells, len, found, id, i + 1)
    else if i >= len then SweepEnd(cells, len, Panic(IndexOutOfRange(i, len)))
    else Sweep(Splice(cells, i, len), len - 1, cells[i], id, i + 1)
  }

  /** `delete` on a store: the loop from the start, with the zero record as the answer so far. */
  function DeleteSweep(medias: seq<Media>, id: int): SweepEnd
  {
    Sweep(medias, |medias|, ZeroMedia, id, 0)
  }

  /** The records whose id is not `id`, in order. */
  function OtherIds(medias: seq<Media>, id: int): seq<Media>
  {
    if medias == [] then []
    else (if medias[0].ID != id then [medias[0]] else []) + OtherIds(medias[1..], id)
  }

  lemma {:induction false} OtherIdsConcat(a: seq<Media>, b: seq<Media>, id: int)
    ensures OtherIds(a + b, id) == OtherIds(a, id) + OtherIds(b, id)
  {
    if a == [] {
      assert a + b == b;
    } else {
      assert (a + b)[0] == a[0] && (a + b)[1..] == a[1..] + b;
      OtherIdsConcat(a[1..], b, id);
    }
  }

  /** Indices `i` up to `k` hold no match: the loop just walks past them. */
  lemma {:induction false} SweepSkips(cells: seq<Media>, len: nat, found: Media, id: int, i: nat, k: nat)
    requires len <= |cells| && i <= k <= |cells|
    requires forall j :: i <= j < k ==> cells[j].ID != id
    ensures Sweep(cells, len, found, id, i) == Sweep(cells, len, found, id, k)
    decreases k - i
  {
    if i < k {
      SweepSkips(cells, len, found, id, i + 1, k);
    }
  }

  /** Each step of the loop removes only records with the id and moves none of the others. */
  lemma {:induction false} SweepKeepsOthers(cells: seq<Media>, len: nat, found: Media, id: int, i: nat)
    requires len <= |cells| && i <= |cells|
    ensures var r := Sweep(cells, len, found, id, i);
            OtherIds(r.cells[..r.len], id) == OtherIds(cells[..len], id)
    decreases |cells| - i
  {
    if i < |cells| {
      if cells[i].ID != id {
        SweepKeepsOthers(cells, len, found, id, i + 1);
      } else if i < len {
        SpliceKeepsOthers(cells, i, len, id);
        SweepKeepsOthers(Splice(cells, i, len), len - 1, cells[i], id, i + 1);
      }
    }
  }

  /** The loop only ever takes records out of the live part of the array. */
  lemma {:induction false} SweepShrinks(cells: seq<Media>, len: nat, found: Media, id: int, i: nat)
    requires len <= |cells| && i <= |cells|
    ensures var r := Sweep(cells, len, found, id, i);
            multiset(r.cells[..r.len]) <= multiset(cells[..len])
    decreases |cells| - i
  {
    if i < |cells| {
      if cells[i].ID != id {
        SweepShrinks(cells, len, found, id, i + 1);
      } else if i < len {
        SpliceRemovesOne(cells, i, len);
        SweepShrinks(Splice(cells, i, len), len - 1, cells[i], id, i + 1);
      }
    }
  }

  /** The loop never touches the cells before the index it starts from. */
  lemma {:induction false} SweepKeepsPrefix(cells: seq<Media>, len: nat, found: Media, id: int, i: nat)
    requires len <= |cells| && i <= |cells|
    ensures Sweep(cells, len, found, id, i).cells[..i] == cells[..i]
    decreases |cells| - i
  {
    if i < |cells| {
      if cells[i].ID != id {
        SweepKeepsPrefix(cells, len, found, id, i + 1);
      } else if i < len {
        var spliced := Splice(cells, i, len);
        SweepKeepsPrefix(spliced, len - 1, cells[i], id, i + 1);
        assert spliced[..i + 1][..i] == cells[..i];
      }
    }
  }

  /** A splice at an index at or past `f + 1` leaves the slice longer than `f`: a cell before the loop index stays live. */
  lemma {:induction false} SweepLenFloor(cells: seq<Media>, len: nat, found: Media, id: int, i: nat, f: nat)
    requires len <= |cells| && i <= |cells|
    requires f < i && f < len
    ensures f < Sweep(cells, len, found, id, i).len
    decreases |cells| - i
  {
    if i < |cells| {
      if cells[i].ID != id {
        SweepLenFloor(cells, len, found, id, i + 1, f);
      } else if i < len {
        SweepLenFloor(Splice(cells, i, len), len - 1, cells[i], id, i + 1, f);
      }
    }
  }

  /** No cell from index `i` on holds a record with the id. */
  ghost predicate NoIdFrom(cells: seq<Media>, id: int, i: nat)
  {
    forall j :: i <= j < |cells| ==> cells[j].ID != id
  }

  /**
   * The answer of the loop is the record it started with, when no later cell
   * has the id, or else a record with the id.
   */
  lemma {:induction false} SweepOutcome(cells: seq<Media>, len: nat, found: Media, id: int, i: nat)
    requires len <= |cells| && i <= |cells|
    ensures var r := Sweep(cells, len, found, id, i);
            r.outcome.Ok? || r.outcome.Panic?
    ensures var r := Sweep(cells, len, found, id, i);
            r.outcome.Ok? ==> (r.outcome.media == found && NoIdFrom(cells, id, i)) || r.outcome.media.ID == id
    decreases |cells| - i
  {
    if i < |cells| {
      if cells[i].ID != id {
        SweepOutcome(cells, len, found, id, i + 1);
      } else if i < len {
        SweepOutcome(Splice(cells, i, len), len - 1, cells[i], id, i + 1);
      }
    }
  }

  /** Unless the loop kept the record it started with, the live part ends with fewer copies of the answer than it began with. */
  lemma {:induction false} SweepRemovesAnswer(cells: seq<Media>, len: nat, found: Media, id: int, i: nat)
    requires len <= |cells| && i <= |cells|
    ensures var r := Sweep(cells, len, found, id, i);
            r.outcome.Ok? && !(r.outcome.media == found && NoIdFrom(cells, id, i)) ==>
              multiset(r.cells[..r.len])[r.outcome.media] < multiset(cells[..len])[r.outcome.media]
    decreases |cells| - i
  {
    if i < |cells| {
      if cells[i].ID != id {
        SweepRemovesAnswer(cells, len, found, id, i + 1);
      } else if i < len {
        var spliced := Splice(cells, i, len);
        var r := Sweep(spliced, len - 1, cells[i], id, i + 1);
        assert Sweep(cells, len, found, id, i) == r;
        SpliceRemovesOne(cells, i, len);
        SweepRemovesAnswer(spliced, len - 1, cells[i], id, i + 1);
        SweepShrinks(spliced, len - 1, cells[i], id, i + 1);
        if r.outcome.Ok? {
          var m := r.outcome.media;
          var before, after := multiset(spliced[..len - 1]), multiset(r.cells[..r.len]);
          assert after[m] <= before[m];
          assert before[m] + (if m == cells[i] then 1 else 0) == multiset(cells[..len])[m];
        }
      }
    }
  }

  /**
   * Whatever happens, even when `delete` panics half-way, the records with
   * other ids are all still there in the same order, and no record is added.
   */
  lemma DeleteKeepsOtherRecords(medias: seq<Media>, id: int)
    ensures var end := DeleteSweep(medias, id);
            OtherIds(end.cells[..end.len], id) == OtherIds(medias, id) &&
            multiset(end.cells[..end.len]) <= multiset(medias)
  {
    SweepKeepsOthers(medias, |medias|, ZeroMedia, id, 0);
    SweepShrinks(medias, |medias|, ZeroMedia, id, 0);
    assert medias[..|medias|] == medias;
  }

  /** With an id no record has, `delete` changes nothing and answers with the zero record. */
  lemma DeleteAbsent(medias: seq<Media>, id: int)
    requires forall k :: 0 <= k < |medias| ==> medias[k].ID != id
    ensures DeleteSweep(medias, id) == SweepEnd(medias, |medias|, Ok(ZeroMedia))
  {
    SweepSkips(medias, |medias|, ZeroMedia, id, 0, |medias|);
  }

  /** `delete` walks past the records before the first match and splices that one out. */
  lemma DeleteSweepAtFirst(medias: seq<Media>, id: int, k: nat)
    requires FirstWithId(medias, id, k)
    ensures DeleteSweep(medias, id) == Sweep(Splice(medias, k, |medias|), |medias| - 1, medias[k], id, k + 1)
  {
    SweepSkips(medias, |medias|, ZeroMedia, id, 0, k);
  }

  /**
   * The first record with the id is always removed: the records before it
   * stay where they were, and what is left is drawn from the store without it.
   */
  lemma DeleteRemovesFirstMatch(medias: seq<Media>, id: int, k: nat)
    requires FirstWithId(medias, id, k)
    ensures var end := DeleteSweep(medias, id);
            end.len < |medias| && end.cells[..k] == medias[..k] &&
            multiset(end.cells[..end.len]) <= multiset(medias[..k] + medias[k + 1..])
  {
    var n := |medias|;
    var spliced := Splice(medias, k, n);
    DeleteSweepAtFirst(medias, id, k);
    SpliceRemovesOne(medias, k, n);
    assert medias[k + 1..n] == medias[k + 1..];
    SweepShrinks(spliced, n - 1, medias[k], id, k + 1);
    SweepKeepsPrefix(spliced, n - 1, medias[k], id, k + 1);
    var end := Sweep(spliced, n - 1, medias[k], id, k + 1);
    assert end.cells[..k] == end.cells[..k + 1][..k];
    assert spliced[..k + 1][..k] == spliced[..k];
  }

  /** With an id exactly one record has, `delete` removes that record, keeps the others in order, and answers with it. */
  lemma DeleteUnique(medias: seq<Media>, id: int, k: nat)
    requires k < |medias| && medias[k].ID == id
    requires forall j :: 0 <= j < |medias| && j != k ==> medias[j].ID != id
    ensures var end := DeleteSweep(medias, id);
            end.outcome == Ok(medias[k]) && end.len == |medias| - 1 &&
            end.cells[..end.len] == medias[..k] + medias[k + 1..]
  {
    var n := |medias|;
    SweepSkips(medias, n, ZeroMedia, id, 0, k);
    var spliced := Splice(medias, k, n);
    assert spliced[..n - 1] == medias[..k] + medias[k + 1..];
    forall j | k + 1 <= j < n
      ensures spliced[j].ID != id
    {
      if j < n - 1 {
        assert spliced[j] == medias[j + 1];
      } else {
        assert spliced[j] == medias[n - 1];
      }
    }
    SweepSkips(spliced, n - 1, medias[k], id, k + 1, n);
  }

  /**
   * Two adjacent records with the id, anywhere after a run of records without
   * it: the first is removed, the second shifts into the slot just visited,
   * and it is still live when the loop ends, whether or not it panics.
   */
  lemma DeleteSkipsAdjacentDuplicate(prefix: seq<Media>, a: Media, b: Media, suffix: seq<Media>, id: int)
    requires forall k :: 0 <= k < |prefix| ==> prefix[k].ID != id
    requires a.ID == id && b.ID == id
    ensures var end := DeleteSweep(prefix + [a, b] + suffix, id);
            |prefix| < end.len && end.cells[|prefix|] == b
  {
    var s, n := prefix + [a, b] + suffix, |prefix|;
    SweepSkips(s, |s|, ZeroMedia, id, 0, n);
    var spliced := Splice(s, n, |s|);
    assert spliced[n] == b;
    SweepLenFloor(spliced, |s| - 1, a, id, n + 1, n);
    SweepKeepsPrefix(spliced, |s| - 1, a, id, n + 1);
    assert spliced[..n + 1][n] == b;
  }

  /**
   * The record `delete` answers with: the zero record when no record has the
   * id, otherwise a record with the id that `delete` removed from the store.
   */
  lemma DeleteOutcome(medias: seq<Media>, id: int)
    ensures var end := DeleteSweep(medias, id);
            (end.outcome.Ok? || end.outcome.Panic?) &&
            ((forall k :: 0 <= k < |medias| ==> medias[k].ID != id) ==> end.outcome == Ok(ZeroMedia))
    ensures var end := DeleteSweep(medias, id);
            (exists k :: 0 <= k < |medias| && medias[k].ID == id) && end.outcome.Ok? ==>
              var m := end.outcome.media;
              m.ID == id && m in medias && multiset(end.cells[..end.len])[m] < multiset(medias)[m]
  {
    SweepOutcome(medias, |medias|, ZeroMedia, id, 0);
    SweepRemovesAnswer(medias, |medias|, ZeroMedia, id, 0);
    assert medias[..|medias|] == medias;
    if forall k :: 0 <= k < |medias| ==> medias[k].ID != id {
      DeleteAbsent(medias, id);
    }
  }

  /**
   * Two adjacent records with the id at the end of the store: the first is
   * removed, then the second is met again in the stale last cell, past the
   * shrunken length, and `medias[i]` panics. The removal is not undone.
   */
  lemma DeleteAdjacentPairAtEndPanics(prefix: seq<Media>, a: Media, b: Media, id: int)
    requires forall k :: 0 <= k < |prefix| ==> prefix[k].ID != id
    requires a.ID == id && b.ID == id
    ensures DeleteSweep(prefix + [a, b], id) ==
            SweepEnd(prefix + [b, b], |prefix| + 1, Panic(IndexOutOfRange(|prefix| + 1, |prefix| + 1)))
  {
    var s, n := prefix + [a, b], |prefix|;
    SweepSkips(s, n + 2, ZeroMedia, id, 0, n);
    assert Splice(s, n, n + 2) == prefix + [b, b];
  }

  /** Deleting id 5 from the seed panics after removing `hello_media_admin`; `hawk's workout` stays. */
  lemma SeedDeleteFivePanics()
    ensures DeleteSweep(SeedMedias, 5) ==
            SweepEnd(SeedMedias[..4] + [SeedMedias[5], SeedMedias[5]], 5, Panic(IndexOutOfRange(5, 5)))
  {
    assert SeedMedias == SeedMedias[..4] + [SeedMedias[4], SeedMedias[5]];
    DeleteAdjacentPairAtEndPanics(SeedMedias[..4], SeedMedias[4], SeedMedias[5], 5);
  }

  // ----- delete, as evidently intended -----

  /** Remove the first record with the id and answer with it; no such record, no change and the zero record. */
  function RemoveFirst(medias: seq<Media>, id: int): Changed
  {
    match FirstIndex(medias, (m: Media) => m.ID == id)
    case None => Changed(medias, ZeroMedia)
    case Some(k) => Changed(medias[..k] + medias[k + 1..], medias[k])
  }

  lemma RemoveFirstAt(medias: seq<Media>, id: int, k: nat)
    requires FirstWithId(medias, id, k)
    ensures RemoveFirst(medias, id) == Changed(medias[..k] + medias[k + 1..], medias[k])
  {
    FirstIndexAt(medias, (m: Media) => m.ID == id, k);
  }

  /** The intended `delete` removes exactly one record, the first with the id, and never panics. */
  lemma RemoveFirstRemovesOne(medias: seq<Media>, id: int)
    ensures var d := RemoveFirst(medias, id);
            ((forall k :: 0 <= k < |medias| ==> medias[k].ID != id) ==> d == Changed(medias, ZeroMedia)) &&
            forall k :: FirstWithId(medias, id, k) ==>
              d.record == medias[k] && |d.medias| == |medias| - 1 && d.medias == medias[..k] + medias[k + 1..]
  {
    match FirstIndex(medias, (m: Media) => m.ID == id)
    case None =>
    case Some(k) =>
      forall k' | FirstWithId(medias, id, k') ensures k' == k { }
  }

  /** Where at most one record has the id, the code as written and the intended removal agree. */
  lemma DeleteAgreesWhenUnique(medias: seq<Media>, id: int)
    requires forall i, j :: 0 <= i < j < |medias| && medias[i].ID == id ==> medias[j].ID != id
    ensures var end, d := DeleteSweep(medias, id), RemoveFirst(medias, id);
            end.cells[..end.len] == d.medias && end.outcome == Ok(d.record)
  {
    match FirstIndex(medias, (m: Media) => m.ID == id)
    case None =>
      DeleteAbsent(medias, id);
      assert medias[..|medias|] == medias;
    case Some(k) =>
      DeleteUnique(medias, id, k);
  }

  /** A second intended delete of an id that occurred once is a no-op answering with the zero record. */
  lemma RemoveFirstTwice(medias: seq<Media>, id: int, k: nat)
    requires k < |medias| && medias[k].ID == id
    requires forall j :: 0 <= j < |medias| && j != k ==> medias[j].ID != id
    ensures var once := RemoveFirst(medias, id);
            RemoveFirst(once.medias, id) == Changed(once.medias, ZeroMedia)
  {
    FirstIndexAt(medias, (m: Media) => m.ID == id, k);
    var rest := medias[..k] + medias[k + 1..];
    forall j | 0 <= j < |rest| ensures rest[j].ID != id {
      if j < k { assert rest[j] == medias[j]; } else { assert rest[j] == medias[j + 1]; }
    }
  }

  // ----- the store -----

  /** The global slice `medias`: a backing array whose first `len` cells are the records. */
  class MediaStore {
    var cells: array<Media>
    var len: nat

    ghost predicate Valid()
      reads this
    {
      len <= cells.Length
    }

    /** The records, in store order. */
    function Medias(): seq<Media>
      reads this, cells
      requires Valid()
    {
      cells[..len]
    }

    /** The store as the program starts it, from the given records (the seed, CRUD.go:26-57). */
    constructor (init: seq<Media>)
      ensures Valid() && Medias() == init
    {
      cells := new Media[|init|](i requires 0 <= i < |init| => init[i]);
      len := |init|;
    }

    /** The `create` resolver, with the random id passed in. */
    method Create(args: Args, id: int) returns (r: Outcome)
      requires Valid() && 0 <= id < 100000
      modifies this, cells
      ensures Valid() && r == NewMedia(args, id)
      ensures Medias() == if r.Ok? then old(Medias()) + [r.media] else old(Medias())
    {
      var name := StringArg(args, "name");
      if name.None? {
        return Panic(NotAString("name"));
      }
      var info := StringArg(args, "info");
      if info.None? {
        return Panic(NotAString("info"));
      }
      var m := Media(id, name.value, info.value);
      if len == cells.Length {
        // append to a full slice: copy into a larger backing array
        var grown := new Media[2 * cells.Length + 1];
        forall j | 0 <= j < len {
          grown[j] := cells[j];
        }
        cells := grown;
      }
      cells[len] := m;
      len := len + 1;
      r := Ok(m);
    }

    /** The `update` resolver: patch the first record with the id in place, then stop. */
    method Update(args: Args) returns (r: Outcome)
      requires Valid()
      modifies cells
      ensures Valid()
      ensures var u := UpdateFirst(old(Medias()), IntOrZero(args, "id"), StringArg(args, "name"), StringArg(args, "type"));
              Medias() == u.medias && r == Ok(u.record)
    {
      var id := IntOrZero(args, "id");
      var name := StringArg(args, "name");
      var typ := StringArg(args, "type");
      var newMedia := ZeroMedia;
      var i := 0;
      while i < len
        invariant 0 <= i <= len
        invariant forall j :: 0 <= j < i ==> cells[j].ID != id
        invariant cells[..] == old(cells[..])
      {
        if cells[i].ID == id {
          FirstIndexAt(cells[..len], (m: Media) => m.ID == id, i);
          if name.Some? {
            cells[i] := cells[i].(Name := name.value);
          }
          if typ.Some? {
            cells[i] := cells[i].(Type := typ.value);
          }
          newMedia := cells[i];
          break;
        }
        i := i + 1;
      }
      r := Ok(newMedia);
    }

    /** The `delete` resolver as written: the splice inside the `range` loop, with no `break`. */
    method Delete(args: Args) returns (r: Outcome)
      requires Valid()
      modifies this`len, cells
      ensures Valid()
      ensures var end := DeleteSweep(old(Medias()), IntOrZero(args, "id"));
              Medias() == end.cells[..end.len] && r == end.outcome
      ensures cells[..old(len)] == DeleteSweep(old(Medias()), IntOrZero(args, "id")).cells
    {
      var id := IntOrZero(args, "id");
      var media := ZeroMedia;
      var n := len;
      ghost var start := cells[..n];
      var i := 0;
      while i < n
        invariant 0 <= i <= n && len <= n <= cells.Length
        invariant Sweep(cells[..n], len, media, id, i) == Sweep(start, n, ZeroMedia, id, 0)
      {
        if cells[i].ID == id {
          if i >= len {
            assert cells[..n][..len] == cells[..len];
            return Panic(IndexOutOfRange(i, len));
          }
          media := cells[i];
          ghost var before := cells[..n];
          forall j | i <= j < len - 1 {
            cells[j] := cells[j + 1];
          }
          assert cells[..n] == Splice(before, i, len);
          len := len - 1;
        }
        i := i + 1;
      }
      assert cells[..n][..len] == cells[..len];
      r := Ok(media);
    }

    /** The evidently intended `delete`: the same splice followed by `break`. */
    method DeleteFirst(args: Args) returns (r: Outcome)
      requires Valid()
      modifies this`len, cells
      ensures Valid()
      ensures var d := RemoveFirst(old(Medias()), IntOrZero(args, "id"));
              Medias() == d.medias && r == Ok(d.record)
    {
      var id := IntOrZero(args, "id");
      var k := 0;
      while k < len
        invariant 0 <= k <= len
        invariant forall j :: 0 <= j < k ==> cells[j].ID != id
      {
        if cells[k].ID == id {
          break;
        }
        k := k + 1;
      }
      if k == len {
        return Ok(ZeroMedia);
      }
      ghost var before := cells[..len];
      RemoveFirstAt(before, id, k);
      r := Ok(cells[k]);
      forall j | k <= j < len - 1 {
        cells[j] := cells[j + 1];
      }
      len := len - 1;
      assert cells[..len] == before[..k] + before[k + 1..];
    }
  }
}
