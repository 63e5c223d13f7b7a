/**
 * The local analysis-record store of the app (utils/storage.ts).
 *
 * One JSON document, `analyses.json` in the app's document directory, holds
 * the list of analysis records, most recently saved first. The store offers
 * three operations over it: save a record (replacing any record with the same
 * id and putting the new one first), list the records (an unreadable document
 * reads as the empty list), and delete every record with a given id. Every
 * operation first makes sure the document exists, creating it with the empty
 * list when it does not.
 *
 * The document is modelled as the list it encodes (JSON text is not); the file
 * system is a field of `AnalysisStore`, and whether each write the source makes
 * succeeds is a parameter of the operation that makes it.
 */
module Storage {

  datatype Option<+T> = None | Some(value: T)

  /** The review status of an analysis: one of three string literals. */
  datatype Status = Reviewed | Completed | Pending

  /** The optional nutrition table; JavaScript numbers are modelled as reals. */
  datatype NutritionFacts = NutritionFacts(
    calories: real,
    protein: real,
    carbs: real,
    fat: real,
    sugar: real,
    sodium: real)

  datatype RegulatoryCompliance = RegulatoryCompliance(isCompliant: bool, issues: seq<string>)

  /** One analysis record. The last four fields are optional in the document. */
  datatype AnalysisData = AnalysisData(
    id: string,
    date: string,
    productName: string,
    imageUri: string,
    result: string,
    status: Status,
    compliant: bool,
    nutritionFacts: Option<NutritionFacts>,
    regulatoryCompliance: Option<RegulatoryCompliance>,
    qualityScore: Option<string>,
    recommendedActions: Option<seq<string>>)

  /** The backing file, as the store can observe it. */
  datatype StoreFile =
    | Absent                                // no file at the storage path
    | Present(records: seq<AnalysisData>)   // the file reads and parses to this list
    | Corrupt                               // the file exists, but reading or parsing it throws

  /** How a writing operation ends: normally, or by rethrowing a write error. */
  datatype Outcome = Done | WriteFailed

  // ---------------------------------------------------------------------------
  // The list transforms
  // ---------------------------------------------------------------------------

  /** The number of records in `s` whose id is `id`. */
  function CountId(s: seq<AnalysisData>, id: string): nat
  {
    if s == [] then 0 else (if s[0].id == id then 1 else 0) + CountId(s[1..], id)
  }

  /** No record of `s` has the id `id`. */
  predicate LacksId(s: seq<AnalysisData>, id: string)
  {
    forall k :: 0 <= k < |s| ==> s[k].id != id
  }

  /** No two records of `s` share an id: the invariant the store keeps on writes. */
  predicate UniqueIds(s: seq<AnalysisData>)
  {
    forall i, j :: 0 <= i < j < |s| ==> s[i].id != s[j].id
  }

  /**
   * `r` is `s` with some of its elements left out, the rest in their order
   * (matched greedily from the front).
   */
  predicate Subsequence(r: seq<AnalysisData>, s: seq<AnalysisData>)
  {
    if r == [] then true
    else if s == [] then false
    else if r[0] == s[0] then Subsequence(r[1..], s[1..])
    else Subsequence(r, s[1..])
  }

  /**
   * The filter `records.filter(a => a.id !== id)`, used by both saveAnalysis
   * (with the saved record's id) and deleteAnalysis.
   */
  function Without(s: seq<AnalysisData>, id: string): (r: seq<AnalysisData>)
    ensures |r| <= |s|
    ensures forall k :: 0 <= k < |r| ==> r[k].id != id
    ensures forall x :: x in r <==> x in s && x.id != id
  {
    if s == [] then []
    else if s[0].id == id then Without(s[1..], id)
    else [s[0]] + Without(s[1..], id)
  }

  /** The list saveAnalysis writes: the new record first, then the old list without its id. */
  function Saved(s: seq<AnalysisData>, a: AnalysisData): (r: seq<AnalysisData>)
    ensures |r| >= 1 && r[0] == a
    ensures |r| <= |s| + 1
    ensures forall k :: 1 <= k < |r| ==> r[k].id != a.id
    ensures forall x :: x in r <==> x == a || (x in s && x.id != a.id)
  {
    [a] + Without(s, a.id)
  }

  // ---------------------------------------------------------------------------
  // Properties of the filter
  // ---------------------------------------------------------------------------

  /** A list with no record of the given id has a count of zero for it. */
  lemma {:induction false} CountIdZero(s: seq<AnalysisData>, id: string)
    requires LacksId(s, id)
    ensures CountId(s, id) == 0
  {
    if s != [] {
      CountIdZero(s[1..], id);
    }
  }

  /** Filtering out an id that no record carries leaves the list unchanged. */
  lemma {:induction false} WithoutAbsentId(s: seq<AnalysisData>, id: string)
    requires LacksId(s, id)
    ensures Without(s, id) == s
  {
    if s != [] {
      WithoutAbsentId(s[1..], id);
      assert s == [s[0]] + s[1..];
    }
  }

  /** Filtering out the same id twice is the same as filtering it out once. */
  lemma WithoutIdempotent(s: seq<AnalysisData>, id: string)
    ensures Without(Without(s, id), id) == Without(s, id)
  {
    WithoutAbsentId(Without(s, id), id);
  }

  /** The filter works element by element: it distributes over concatenation. */
  lemma {:induction false} WithoutConcat(s: seq<AnalysisData>, t: seq<AnalysisData>, id: string)
    ensures Without(s + t, id) == Without(s, id) + Without(t, id)
  {
    if s == [] {
      assert s + t == t;
    } else {
      assert (s + t)[0] == s[0];
      assert (s + t)[1..] == s[1..] + t;
      WithoutConcat(s[1..], t, id);
    }
  }

  /** The filter drops exactly the records carrying the id. */
  lemma {:induction false} WithoutLength(s: seq<AnalysisData>, id: string)
    ensures |Without(s, id)| == |s| - CountId(s, id)
  {
    if s != [] {
      WithoutLength(s[1..], id);
    }
  }

  /** The records that survive the filter keep their relative order. */
  lemma {:induction false} WithoutIsSubsequence(s: seq<AnalysisData>, id: string)
    ensures Subsequence(Without(s, id), s)
  {
    if s != [] {
      WithoutIsSubsequence(s[1..], id);
      var w := Without(s[1..], id);
      if s[0].id == id {
        assert w != [] ==> w[0] != s[0];
      } else {
        assert ([s[0]] + w)[1..] == w;
      }
    }
  }

  /** The filter keeps a list free of duplicate ids. */
  lemma {:induction false} WithoutKeepsUniqueIds(s: seq<AnalysisData>, id: string)
    requires UniqueIds(s)
    ensures UniqueIds(Without(s, id))
  {
    if s != [] {
      UniqueIdsTail(s);
      WithoutKeepsUniqueIds(s[1..], id);
      var w := Without(s[1..], id);
      if s[0].id != id {
        forall x | x in w ensures x.id != s[0].id {
          var k :| 1 <= k < |s| && s[k] == x;
        }
        var r := [s[0]] + w;
        forall i, j | 0 <= i < j < |r| ensures r[i].id != r[j].id {
          if i == 0 {
            assert r[j] == w[j - 1] && r[j] in w;
          } else {
            assert r[i] == w[i - 1] && r[j] == w[j - 1];
          }
        }
      }
    }
  }

  /** A list without duplicate ids keeps that property when its first record is dropped. */
  lemma UniqueIdsTail(s: seq<AnalysisData>)
    requires UniqueIds(s) && s != []
    ensures UniqueIds(s[1..]) && LacksId(s[1..], s[0].id)
  {
    var tail := s[1..];
    forall i, j | 0 <= i < j < |tail| ensures tail[i].id != tail[j].id {
      assert tail[i] == s[i + 1] && tail[j] == s[j + 1];
    }
    forall k | 0 <= k < |tail| ensures tail[k].id != s[0].id {
      assert tail[k] == s[k + 1];
    }
  }

  /** In a list without duplicate ids, deleting the id at index i removes just that record. */
  lemma {:induction false} DeleteRemovesOne(s: seq<AnalysisData>, i: nat)
    requires UniqueIds(s)
    requires i < |s|
    ensures Without(s, s[i].id) == s[..i] + s[i + 1..]
  {
    UniqueIdsTail(s);
    var tail := s[1..];
    if i == 0 {
      WithoutAbsentId(tail, s[0].id);
    } else {
      assert tail[i - 1] == s[i];
      assert s[0].id != s[i].id;
      DeleteRemovesOne(tail, i - 1);
      assert tail[..i - 1] == s[1..i] && tail[i..] == s[i + 1..];
      assert s[..i] == [s[0]] + s[1..i];
    }
  }

  // ---------------------------------------------------------------------------
  // Properties of the save transform
  // ---------------------------------------------------------------------------

  /** After a save exactly one record carries the saved id, however many did before. */
  lemma SavedHasIdOnce(s: seq<AnalysisData>, a: AnalysisData)
    ensures CountId(Saved(s, a), a.id) == 1
  {
    var w := Without(s, a.id);
    assert Saved(s, a)[1..] == w;
    CountIdZero(w, a.id);
  }

  /** Apart from the new first record, a save keeps exactly the old records of other ids, in order. */
  lemma SavedRestIsFiltered(s: seq<AnalysisData>, a: AnalysisData)
    ensures Saved(s, a)[1..] == Without(s, a.id)
    ensures Subsequence(Saved(s, a)[1..], s)
    ensures |Saved(s, a)| == |s| - CountId(s, a.id) + 1
  {
    assert Saved(s, a)[1..] == Without(s, a.id);
    WithoutIsSubsequence(s, a.id);
    WithoutLength(s, a.id);
  }

  /** Saving a record whose id is new puts it in front of the unchanged list. */
  lemma SavedNewId(s: seq<AnalysisData>, a: AnalysisData)
    requires LacksId(s, a.id)
    ensures Saved(s, a) == [a] + s
  {
    WithoutAbsentId(s, a.id);
  }

  /** Saving keeps the list free of duplicate ids. */
  lemma SavedKeepsUniqueIds(s: seq<AnalysisData>, a: AnalysisData)
    requires UniqueIds(s)
    ensures UniqueIds(Saved(s, a))
  {
    WithoutKeepsUniqueIds(s, a.id);
    var r := Saved(s, a);
    var w := Without(s, a.id);
    forall i, j | 0 <= i < j < |r| ensures r[i].id != r[j].id {
      if i > 0 {
        assert r[i] == w[i - 1] && r[j] == w[j - 1];
      }
    }
  }

  /** Deleting the id just saved leaves what deleting it from the old list leaves. */
  lemma DeleteAfterSave(s: seq<AnalysisData>, a: AnalysisData)
    ensures Without(Saved(s, a), a.id) == Without(s, a.id)
  {
    var w := Without(s, a.id);
    WithoutConcat([a], w, a.id);
    assert [a][1..] == [];
    assert Without([a], a.id) == [];
    WithoutIdempotent(s, a.id);
  }

  /** A second save with the same id replaces the first: the last write for an id wins. */
  lemma SavedOverwrites(s: seq<AnalysisData>, a: AnalysisData, b: AnalysisData)
    requires b.id == a.id
    ensures Saved(Saved(s, a), b) == Saved(s, b)
  {
    DeleteAfterSave(s, a);
  }

  /** `batch` in reverse order. */
  function Reversed(batch: seq<AnalysisData>): (r: seq<AnalysisData>)
    ensures |r| == |batch|
    ensures forall x :: x in r <==> x in batch
  {
    if batch == [] then []
    else [batch[|batch| - 1]] + Reversed(batch[..|batch| - 1])
  }

  /** The list after saving the records of `batch` one after the other, first to last. */
  function SavedAll(s: seq<AnalysisData>, batch: seq<AnalysisData>): seq<AnalysisData>
  {
    if batch == [] then s
    else Saved(SavedAll(s, batch[..|batch| - 1]), batch[|batch| - 1])
  }

  /** No record of `batch` shares an id with a record of `s`. */
  predicate DisjointIds(batch: seq<AnalysisData>, s: seq<AnalysisData>)
  {
    forall x, y :: x in batch && y in s ==> x.id != y.id
  }

  /** Dropping the last record of a batch keeps its ids unique and disjoint from `s`. */
  lemma BatchPrefix(s: seq<AnalysisData>, batch: seq<AnalysisData>)
    requires UniqueIds(batch) && DisjointIds(batch, s) && batch != []
    ensures UniqueIds(batch[..|batch| - 1]) && DisjointIds(batch[..|batch| - 1], s)
  {
    var init := batch[..|batch| - 1];
    forall i, j | 0 <= i < j < |init| ensures init[i].id != init[j].id {
      assert init[i] == batch[i] && init[j] == batch[j];
    }
    forall x | x in init ensures x in batch {
      var j :| 0 <= j < |init| && init[j] == x;
      assert batch[j] == x;
    }
  }

  /** The last record of a batch has an id that neither the earlier records nor `s` carry. */
  lemma BatchLastIsNew(s: seq<AnalysisData>, batch: seq<AnalysisData>)
    requires UniqueIds(batch) && DisjointIds(batch, s) && batch != []
    ensures forall x :: x in Reversed(batch[..|batch| - 1]) + s ==> x.id != batch[|batch| - 1].id
  {
    var n := |batch| - 1;
    var init := batch[..n];
    assert batch[n] in batch;
    forall x | x in Reversed(init) + s ensures x.id != batch[n].id {
      if x in init {
        var j :| 0 <= j < |init| && init[j] == x;
        assert batch[j] == x;
      }
    }
  }

  /**
   * Saves of records with distinct, new ids stack up most recent first:
   * saving A, then B, then C onto `s` gives [C, B, A] + s.
   */
  lemma {:induction false} SavedAllPrepends(s: seq<AnalysisData>, batch: seq<AnalysisData>)
    requires UniqueIds(batch)
    requires DisjointIds(batch, s)
    ensures SavedAll(s, batch) == Reversed(batch) + s
  {
    if batch != [] {
      var n := |batch| - 1;
      var init, last := batch[..n], batch[n];
      BatchPrefix(s, batch);
      SavedAllPrepends(s, init);
      var before := Reversed(init) + s;
      BatchLastIsNew(s, batch);
      forall k | 0 <= k < |before| ensures before[k].id != last.id {
        assert before[k] in before;
      }
      SavedNewId(before, last);
    }
  }

  // ---------------------------------------------------------------------------
  // The store
  // ---------------------------------------------------------------------------

  /** What reading the document yields once a failed read is masked as the empty list. */
  function Listed(f: StoreFile): seq<AnalysisData>
  {
    if f.Present? then f.records else []
  }

  /** At most one record per id in a readable document; an unreadable or absent one keeps nothing. */
  predicate WellFormed(f: StoreFile)
  {
    UniqueIds(Listed(f))
  }

  /**
   * The file at the storage path and the operations of utils/storage.ts on it.
   * Each operation runs to completion before the next starts.
   */
  class AnalysisStore {
    var file: StoreFile

    constructor (initial: StoreFile)
      ensures file == initial
    {
      file := initial;
    }

    /** Reading and parsing the whole document; a missing or corrupt file makes it throw (None). */
    method ReadDocument() returns (doc: Option<seq<AnalysisData>>)
      ensures doc.Some? <==> file.Present?
      ensures doc.Some? ==> doc.value == file.records
    {
      match file
      case Present(records) => doc := Some(records);
      case Absent => doc := None;
      case Corrupt => doc := None;
    }

    /** Overwriting the whole document with `records`; when the write fails the file is untouched. */
    method WriteDocument(records: seq<AnalysisData>, writeOk: bool) returns (outcome: Outcome)
      modifies this
      ensures writeOk ==> outcome == Done && file == Present(records)
      ensures !writeOk ==> outcome == WriteFailed && file == old(file)
    {
      if writeOk {
        file := Present(records);
        outcome := Done;
      } else {
        outcome := WriteFailed;
      }
    }

    /**
     * Creates the document holding the empty list when no file exists;
     * a file that exists, readable or not, is left alone.
     */
    method EnsureStorageFile(bootstrapWriteOk: bool) returns (outcome: Outcome)
      modifies this
      ensures old(file).Absent? && bootstrapWriteOk ==> outcome == Done && file == Present([])
      ensures old(file).Absent? && !bootstrapWriteOk ==> outcome == WriteFailed && file == Absent
      ensures !old(file).Absent? ==> outcome == Done && file == old(file)
    {
      if file.Absent? {
        outcome := WriteDocument([], bootstrapWriteOk);
      } else {
        outcome := Done;
      }
    }

    /**
     * The stored list in stored order; any failure, in creating the file or
     * in reading or parsing it, yields the empty list instead of an error.
     */
    method GetAnalyses(bootstrapWriteOk: bool) returns (records: seq<AnalysisData>)
      modifies this
      ensures old(file).Present? ==> records == old(file).records
      ensures !old(file).Present? ==> records == []
      ensures old(file).Absent? && bootstrapWriteOk ==> file == Present([])
      ensures !(old(file).Absent? && bootstrapWriteOk) ==> file == old(file)
    {
      var ensured := EnsureStorageFile(bootstrapWriteOk);
      if ensured == WriteFailed {
        return [];
      }
      var doc := ReadDocument();
      match doc
      case Some(stored) => records := stored;
      case None => records := [];
    }

    /**
     * Stores `analysis` in front of the stored records of other ids. A failed
     * write is reported; an unreadable document is overwritten as if empty.
     */
    method SaveAnalysis(analysis: AnalysisData, bootstrapWriteOk: bool, writeOk: bool)
      returns (outcome: Outcome)
      modifies this
      ensures outcome == Done <==> writeOk && (old(file).Absent? ==> bootstrapWriteOk)
      ensures outcome == Done ==> file == Present(Saved(Listed(old(file)), analysis))
      ensures outcome == Done ==> file.records[0] == analysis && CountId(file.records, analysis.id) == 1
      ensures outcome == Done && old(file).Corrupt? ==> file == Present([analysis])
      ensures outcome == WriteFailed && old(file).Absent? && bootstrapWriteOk ==> file == Present([])
      ensures outcome == WriteFailed && !(old(file).Absent? && bootstrapWriteOk) ==> file == old(file)
      ensures WellFormed(old(file)) ==> WellFormed(file)
    {
      ghost var before := file;
      outcome := EnsureStorageFile(bootstrapWriteOk);
      if outcome == WriteFailed {
        return;
      }
      var existing := GetAnalyses(bootstrapWriteOk);
      assert existing == Listed(before);
      var updated := Saved(existing, analysis);
      outcome := WriteDocument(updated, writeOk);
      SavedHasIdOnce(existing, analysis);
      if UniqueIds(existing) {
        SavedKeepsUniqueIds(existing, analysis);
      }
    }

    /**
     * Removes every stored record with the given id, keeping the others in
     * order; an id that is not stored is not an error. A failed write is reported.
     */
    method DeleteAnalysis(id: string, bootstrapWriteOk: bool, writeOk: bool)
      returns (outcome: Outcome)
      modifies this
      ensures outcome == Done <==> writeOk && (old(file).Absent? ==> bootstrapWriteOk)
      ensures outcome == Done ==> file == Present(Without(Listed(old(file)), id))
      ensures outcome == Done ==> LacksId(file.records, id)
      ensures (outcome == Done && old(file).Present?
                 && LacksId(old(file).records, id))
                ==> file == old(file)
      ensures outcome == WriteFailed && old(file).Absent? && bootstrapWriteOk ==> file == Present([])
      ensures outcome == WriteFailed && !(old(file).Absent? && bootstrapWriteOk) ==> file == old(file)
      ensures WellFormed(old(file)) ==> WellFormed(file)
    {
      ghost var before := file;
      outcome := EnsureStorageFile(bootstrapWriteOk);
      if outcome == WriteFailed {
        return;
      }
      var existing := GetAnalyses(bootstrapWriteOk);
      assert existing == Listed(before);
      var updated := Without(existing, id);
      outcome := WriteDocument(updated, writeOk);
      if LacksId(existing, id) {
        WithoutAbsentId(existing, id);
      }
      if UniqueIds(existing) {
        WithoutKeepsUniqueIds(existing, id);
      }
    }
  }

  // ---------------------------------------------------------------------------
  // A client: two saves, a listing, a delete and a second listing
  // ---------------------------------------------------------------------------

  const ProteinShake := AnalysisData("1", "2024-02-15", "Protein Shake", "file://a.jpg",
    "Non-Compliant", Reviewed, false, None, None, None, None)

  const Granola := AnalysisData("2", "2024-02-16", "Granola", "file://b.jpg",
    "Compliant", Completed, true, None, None, None, None)

  /**
   * Starting without a file, save ProteinShake then Granola, list, delete
   * id "1" and list again; no write fails.
   */
  method SaveListDeleteScenario() returns (listed: seq<AnalysisData>, afterDelete: seq<AnalysisData>)
    ensures listed == [Granola, ProteinShake]
    ensures afterDelete == [Granola]
  {
    var store := new AnalysisStore(Absent);
    var saved1 := store.SaveAnalysis(ProteinShake, true, true);
    var saved2 := store.SaveAnalysis(Granola, true, true);
    listed := store.GetAnalyses(true);
    var deleted := store.DeleteAnalysis("1", true, true);
    afterDelete := store.GetAnalyses(true);
  }
}
