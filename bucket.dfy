/**
 * main.go: how one bucket listing is split into unprocessed and processed
 * data objects by the marker-key scheme, and the ordered effects of
 * processing one object and cleaning one object on the object store.
 */
module Bucket {
  import opened Wrappers
  import opened GoStrings

  /** One entry of the listing (`types.Object`): its key and last-modified instant in nanoseconds. */
  datatype Object = Object(key: string, lastModified: int)

  /** The marker key written (and later deleted) for data key `key`. */
  function MarkerKey(key: string, suffix: string, markerSuffix: string): (r: string)
    ensures OnlyAtEnd(key, suffix) ==> r == key[..|key| - |suffix|] + markerSuffix
  {
    ReplaceAllAtEnd(key, suffix, markerSuffix);
    ReplaceAll(key, suffix, markerSuffix)
  }

  /** The data key that the listing's marker `marker` is taken to stand for. */
  function DataKeyOf(marker: string, suffix: string, markerSuffix: string): (r: string)
    ensures OnlyAtEnd(marker, markerSuffix) ==> r == marker[..|marker| - |markerSuffix|] + suffix
    ensures markerSuffix != [] && Absent(marker, markerSuffix) ==> r == marker
  {
    ReplaceAllAtEnd(marker, markerSuffix, suffix);
    ReplaceAllNoMatch(marker, markerSuffix, suffix);
    ReplaceAll(marker, markerSuffix, suffix)
  }

  /** `csvFiles`: the objects whose key ends with `suffix`, in listing order. */
  function DataObjects(objs: seq<Object>, suffix: string): seq<Object> {
    if objs == [] then []
    else
      var last := objs[|objs| - 1];
      DataObjects(objs[..|objs| - 1], suffix) + (if HasSuffix(last.key, suffix) then [last] else [])
  }

  /** `processedElems`: for every marker of the listing, in order, the data key it is rewritten to. */
  function MarkedKeys(objs: seq<Object>, suffix: string, markerSuffix: string): seq<string> {
    if objs == [] then []
    else
      var last := objs[|objs| - 1];
      MarkedKeys(objs[..|objs| - 1], suffix, markerSuffix) +
      (if HasSuffix(last.key, markerSuffix) then [DataKeyOf(last.key, suffix, markerSuffix)] else [])
  }

  /**
   * The objects of `objs` that end with `suffix` and whose key is in `marked`
   * (when `isProcessed`) or is not (otherwise), in order.
   */
  function Pick(objs: seq<Object>, suffix: string, marked: seq<string>, isProcessed: bool): seq<Object> {
    if objs == [] then []
    else
      var last := objs[|objs| - 1];
      Pick(objs[..|objs| - 1], suffix, marked, isProcessed) +
      (if HasSuffix(last.key, suffix) && (last.key in marked) == isProcessed then [last] else [])
  }

  /** The pair (unprocessed, processed) that `filterBucketContent` computes. */
  function Classify(listing: seq<Object>, suffix: string, markerSuffix: string): (seq<Object>, seq<Object>) {
    if suffix == [] then ([], [])
    else
      var marked := MarkedKeys(listing, suffix, markerSuffix);
      (Pick(listing, suffix, marked, false), Pick(listing, suffix, marked, true))
  }

  /** Some object of the listing is a marker whose rewritten key is `key`. */
  predicate HasMarker(listing: seq<Object>, key: string, suffix: string, markerSuffix: string) {
    exists m :: m in listing && HasSuffix(m.key, markerSuffix) && DataKeyOf(m.key, suffix, markerSuffix) == key
  }

  /** `a` is `b` with some elements left out, the rest in the same order. */
  predicate IsSubsequence(a: seq<Object>, b: seq<Object>)
    decreases |b|
  {
    if a == [] then true
    else if b == [] then false
    else
      (a[|a| - 1] == b[|b| - 1] && IsSubsequence(a[..|a| - 1], b[..|b| - 1])) ||
      IsSubsequence(a, b[..|b| - 1])
  }

  /**
   * `filterBucketContent`: one pass over the listing collects the data
   * objects and the rewritten marker keys, a second pass splits the data
   * objects by membership of their key among the rewritten marker keys.
   */
  method FilterBucketContent(listing: seq<Object>, suffix: string, markerSuffix: string)
    returns (unprocessed: seq<Object>, processed: seq<Object>)
    ensures suffix == [] ==> unprocessed == [] && processed == []
    ensures (unprocessed, processed) == Classify(listing, suffix, markerSuffix)
  {
    var csvFiles: seq<Object> := [];
    var processedElems: seq<string> := [];
    unprocessed, processed := [], [];
    if |suffix| == 0 {
      return;
    }
    var i := 0;
    while i < |listing|
      invariant 0 <= i <= |listing|
      invariant csvFiles == DataObjects(listing[..i], suffix)
      invariant processedElems == MarkedKeys(listing[..i], suffix, markerSuffix)
    {
      var s := listing[i];
      DataObjectsStep(listing, i, suffix);
      MarkedKeysStep(listing, i, suffix, markerSuffix);
      if HasSuffix(s.key, suffix) {
        csvFiles := csvFiles + [s];
      }
      if HasSuffix(s.key, markerSuffix) {
        processedElems := processedElems + [ReplaceAll(s.key, markerSuffix, suffix)];
      }
      i := i + 1;
    }
    assert listing[..i] == listing;
    DataObjectsMembers(listing, suffix);
    var j := 0;
    while j < |csvFiles|
      invariant 0 <= j <= |csvFiles|
      invariant unprocessed == Pick(csvFiles[..j], suffix, processedElems, false)
      invariant processed == Pick(csvFiles[..j], suffix, processedElems, true)
    {
      var o := csvFiles[j];
      PickStep(csvFiles, j, suffix, processedElems, false);
      PickStep(csvFiles, j, suffix, processedElems, true);
      assert HasSuffix(o.key, suffix) by {
        assert o in csvFiles;
      }
      if o.key !in processedElems {
        unprocessed := unprocessed + [o];
      } else {
        processed := processed + [o];
      }
      j := j + 1;
    }
    assert csvFiles[..j] == csvFiles;
    PickOfData(listing, suffix, processedElems, false);
    PickOfData(listing, suffix, processedElems, true);
  }

  lemma DataObjectsStep(objs: seq<Object>, i: nat, suffix: string)
    requires i < |objs|
    ensures DataObjects(objs[..i + 1], suffix) ==
      DataObjects(objs[..i], suffix) + (if HasSuffix(objs[i].key, suffix) then [objs[i]] else [])
  {
    assert objs[..i + 1][..i] == objs[..i];
  }

  lemma MarkedKeysStep(objs: seq<Object>, i: nat, suffix: string, markerSuffix: string)
    requires i < |objs|
    ensures MarkedKeys(objs[..i + 1], suffix, markerSuffix) ==
      MarkedKeys(objs[..i], suffix, markerSuffix) +
      (if HasSuffix(objs[i].key, markerSuffix) then [DataKeyOf(objs[i].key, suffix, markerSuffix)] else [])
  {
    assert objs[..i + 1][..i] == objs[..i];
  }

  lemma PickStep(objs: seq<Object>, i: nat, suffix: string, marked: seq<string>, isProcessed: bool)
    requires i < |objs|
    ensures Pick(objs[..i + 1], suffix, marked, isProcessed) ==
      Pick(objs[..i], suffix, marked, isProcessed) +
      (if HasSuffix(objs[i].key, suffix) && (objs[i].key in marked) == isProcessed then [objs[i]] else [])
  {
    assert objs[..i + 1][..i] == objs[..i];
  }

  lemma {:induction false} DataObjectsMembers(objs: seq<Object>, suffix: string)
    ensures forall o :: o in DataObjects(objs, suffix) <==> o in objs && HasSuffix(o.key, suffix)
  {
    if objs != [] {
      var init := objs[..|objs| - 1];
      DataObjectsMembers(init, suffix);
      assert objs == init + [objs[|objs| - 1]];
    }
  }

  /** Filtering the data objects again by suffix changes nothing. */
  lemma {:induction false} PickOfData(objs: seq<Object>, suffix: string, marked: seq<string>, isProcessed: bool)
    ensures Pick(DataObjects(objs, suffix), suffix, marked, isProcessed) == Pick(objs, suffix, marked, isProcessed)
  {
    if objs != [] {
      var init := objs[..|objs| - 1];
      var last := objs[|objs| - 1];
      PickOfData(init, suffix, marked, isProcessed);
      if HasSuffix(last.key, suffix) {
        var d := DataObjects(init, suffix) + [last];
        assert DataObjects(objs, suffix) == d;
        assert d[..|d| - 1] == DataObjects(init, suffix);
        assert d[|d| - 1] == last;
        assert Pick(d, suffix, marked, isProcessed) ==
          Pick(DataObjects(init, suffix), suffix, marked, isProcessed) +
          (if (last.key in marked) == isProcessed then [last] else []);
      } else {
        assert DataObjects(objs, suffix) == DataObjects(init, suffix);
        assert Pick(objs, suffix, marked, isProcessed) == Pick(init, suffix, marked, isProcessed);
      }
    }
  }

  lemma {:induction false} PickMembers(objs: seq<Object>, suffix: string, marked: seq<string>, isProcessed: bool)
    ensures forall o :: o in Pick(objs, suffix, marked, isProcessed) <==>
      o in objs && HasSuffix(o.key, suffix) && (o.key in marked) == isProcessed
  {
    if objs != [] {
      var init := objs[..|objs| - 1];
      PickMembers(init, suffix, marked, isProcessed);
      assert objs == init + [objs[|objs| - 1]];
    }
  }

  lemma {:induction false} MarkedKeysMembers(objs: seq<Object>, suffix: string, markerSuffix: string)
    ensures forall k :: k in MarkedKeys(objs, suffix, markerSuffix) <==> HasMarker(objs, k, suffix, markerSuffix)
  {
    if objs != [] {
      var init := objs[..|objs| - 1];
      var last := objs[|objs| - 1];
      MarkedKeysMembers(init, suffix, markerSuffix);
      assert objs == init + [last];
      forall k | HasMarker(objs, k, suffix, markerSuffix)
        ensures k in MarkedKeys(objs, suffix, markerSuffix)
      {
        var m :| m in objs && HasSuffix(m.key, markerSuffix) && DataKeyOf(m.key, suffix, markerSuffix) == k;
        if m != last {
          assert m in init;
          assert HasMarker(init, k, suffix, markerSuffix);
        }
      }
      forall k | k in MarkedKeys(objs, suffix, markerSuffix)
        ensures HasMarker(objs, k, suffix, markerSuffix)
      {
        if k in MarkedKeys(init, suffix, markerSuffix) {
          var m :| m in init && HasSuffix(m.key, markerSuffix) && DataKeyOf(m.key, suffix, markerSuffix) == k;
          assert m in objs;
        } else {
          assert last in objs;
        }
      }
    }
  }

  /**
   * Classification by key: a data object is processed exactly when some
   * marker of the same listing rewrites to its key, and unprocessed exactly
   * when none does; an object without the data suffix is in neither list.
   */
  lemma ClassifyMembers(listing: seq<Object>, suffix: string, markerSuffix: string, o: Object)
    requires suffix != []
    ensures o in Classify(listing, suffix, markerSuffix).1 <==>
      o in listing && HasSuffix(o.key, suffix) && HasMarker(listing, o.key, suffix, markerSuffix)
    ensures o in Classify(listing, suffix, markerSuffix).0 <==>
      o in listing && HasSuffix(o.key, suffix) && !HasMarker(listing, o.key, suffix, markerSuffix)
  {
    var marked := MarkedKeys(listing, suffix, markerSuffix);
    MarkedKeysMembers(listing, suffix, markerSuffix);
    PickMembers(listing, suffix, marked, false);
    PickMembers(listing, suffix, marked, true);
  }

  lemma {:induction false} PickCounts(objs: seq<Object>, suffix: string, marked: seq<string>)
    ensures multiset(Pick(objs, suffix, marked, false)) + multiset(Pick(objs, suffix, marked, true)) ==
      multiset(DataObjects(objs, suffix))
  {
    if objs != [] {
      PickCounts(objs[..|objs| - 1], suffix, marked);
    }
  }

  /**
   * Every data object of the listing lands in exactly one of the two lists,
   * as often as it is listed, and nothing else lands in either.
   */
  lemma ClassifyPartition(listing: seq<Object>, suffix: string, markerSuffix: string)
    requires suffix != []
    ensures multiset(Classify(listing, suffix, markerSuffix).0) + multiset(Classify(listing, suffix, markerSuffix).1) ==
      multiset(DataObjects(listing, suffix))
    ensures forall o :: o in listing && HasSuffix(o.key, suffix) ==>
      (o in Classify(listing, suffix, markerSuffix).0) != (o in Classify(listing, suffix, markerSuffix).1)
    ensures forall o :: o in Classify(listing, suffix, markerSuffix).0 || o in Classify(listing, suffix, markerSuffix).1 ==>
      o in listing && HasSuffix(o.key, suffix)
  {
    var marked := MarkedKeys(listing, suffix, markerSuffix);
    PickCounts(listing, suffix, marked);
    PickMembers(listing, suffix, marked, false);
    PickMembers(listing, suffix, marked, true);
  }

  lemma {:induction false} PickIsSubsequence(objs: seq<Object>, suffix: string, marked: seq<string>, isProcessed: bool)
    ensures IsSubsequence(Pick(objs, suffix, marked, isProcessed), objs)
  {
    if objs != [] {
      var init := objs[..|objs| - 1];
      var p := Pick(init, suffix, marked, isProcessed);
      PickIsSubsequence(init, suffix, marked, isProcessed);
      var q := Pick(objs, suffix, marked, isProcessed);
      if q != p {
        assert q == p + [objs[|objs| - 1]];
        assert q[..|q| - 1] == p;
      }
    }
  }

  /** Both lists keep the listing's order. */
  lemma ClassifyKeepsOrder(listing: seq<Object>, suffix: string, markerSuffix: string)
    ensures IsSubsequence(Classify(listing, suffix, markerSuffix).0, listing)
    ensures IsSubsequence(Classify(listing, suffix, markerSuffix).1, listing)
  {
    if suffix != [] {
      var marked := MarkedKeys(listing, suffix, markerSuffix);
      PickIsSubsequence(listing, suffix, marked, false);
      PickIsSubsequence(listing, suffix, marked, true);
    }
  }

  /**
   * The marker written for `key` is recognised as `key`'s marker, provided
   * the data suffix occurs in `key` only at its end and the marker suffix
   * occurs in the marker key only at its end.
   */
  lemma MarkerRoundTrip(key: string, suffix: string, markerSuffix: string)
    requires OnlyAtEnd(key, suffix)
    requires OnlyAtEnd(MarkerKey(key, suffix, markerSuffix), markerSuffix)
    ensures HasSuffix(MarkerKey(key, suffix, markerSuffix), markerSuffix)
    ensures DataKeyOf(MarkerKey(key, suffix, markerSuffix), suffix, markerSuffix) == key
  {
    var base := key[..|key| - |suffix|];
    assert key == base + suffix;
    ReplaceAllTrailing(base, suffix, markerSuffix);
    ReplaceAllTrailing(base, markerSuffix, suffix);
  }

  /** Once the marker of a data object is listed beside it, the object is classified as processed. */
  lemma MarkedObjectIsProcessed(listing: seq<Object>, d: Object, marker: Object, suffix: string, markerSuffix: string)
    requires d in listing && marker in listing
    requires OnlyAtEnd(d.key, suffix)
    requires marker.key == MarkerKey(d.key, suffix, markerSuffix)
    requires OnlyAtEnd(marker.key, markerSuffix)
    ensures d in Classify(listing, suffix, markerSuffix).1
    ensures d !in Classify(listing, suffix, markerSuffix).0
  {
    MarkerRoundTrip(d.key, suffix, markerSuffix);
    assert HasMarker(listing, d.key, suffix, markerSuffix);
    ClassifyMembers(listing, suffix, markerSuffix, d);
  }

  lemma MarkerInsideKeyRewrites()
    ensures MarkerKey("processed/a.csv", ".csv", "processed") == "processed/aprocessed"
  {
    assert "processed/a" + ".csv" == "processed/a.csv";
    assert "processed/a" + "processed" == "processed/aprocessed";
    assert ReplaceAll("processed/a" + ".csv", ".csv", "processed") == "processed/a" + "processed" by {
      assert '.' !in "processed/a";
      ReplaceAfter("processed/a", ".csv", "processed");
    }
  }

  lemma MarkerInsideKeyReadsBack()
    ensures DataKeyOf("processed/aprocessed", ".csv", "processed") == ".csv/a.csv"
  {
    assert "processed" + "/a" + "processed" == "processed/aprocessed";
    assert ".csv" + "/a" + ".csv" == ".csv/a.csv";
    assert ReplaceAll("processed" + "/a" + "processed", "processed", ".csv") == ".csv" + "/a" + ".csv" by {
      ReplaceAround("processed", "/a", ".csv");
    }
  }

  /** The two objects of the example below: a data object under a `processed/` folder and its marker. */
  function ExampleListing(): seq<Object> {
    [Object("processed/a.csv", 0), Object("processed/aprocessed", 1)]
  }

  lemma ExampleSuffixes()
    ensures HasSuffix(ExampleListing()[0].key, ".csv") && !HasSuffix(ExampleListing()[0].key, "processed")
    ensures HasSuffix(ExampleListing()[1].key, "processed") && !HasSuffix(ExampleListing()[1].key, ".csv")
  {
    var a, b := ExampleListing()[0], ExampleListing()[1];
    assert a.key == "processed/a" + ".csv";
    assert b.key == "processed/a" + "processed";
    HasSuffixOfConcat("processed/a", ".csv");
    HasSuffixOfConcat("processed/a", "processed");
    NoSuffixLastChar(a.key, "processed");
    NoSuffixLastChar(b.key, ".csv");
  }

  lemma ExampleMarked()
    ensures MarkedKeys(ExampleListing(), ".csv", "processed") == [".csv/a.csv"]
  {
    var listing := ExampleListing();
    ExampleSuffixes();
    MarkerInsideKeyReadsBack();
    assert listing[..1] == [listing[0]] && [listing[0]][..0] == [];
    assert MarkedKeys([listing[0]], ".csv", "processed") == [];
  }

  /**
   * The conditions of MarkerRoundTrip are needed: a data key that contains
   * the marker suffix elsewhere is rewritten to a different key, so its
   * object stays unprocessed although its marker is listed.
   */
  lemma MarkerInsideKeyIsMissed()
    ensures ExampleListing()[1].key == MarkerKey(ExampleListing()[0].key, ".csv", "processed")
    ensures Classify(ExampleListing(), ".csv", "processed").0 == [ExampleListing()[0]]
  {
    assert ExampleListing()[1].key == MarkerKey(ExampleListing()[0].key, ".csv", "processed") by {
      MarkerInsideKeyRewrites();
    }
    ExampleMarked();
    ExampleUnprocessed();
  }

  lemma ExampleUnprocessed()
    ensures Pick(ExampleListing(), ".csv", [".csv/a.csv"], false) == [ExampleListing()[0]]
  {
    var listing := ExampleListing();
    ExampleSuffixes();
    assert listing[0].key !in [".csv/a.csv"] by { assert listing[0].key[0] != ".csv/a.csv"[0]; }
    PickDataFirst(listing, ".csv", [".csv/a.csv"]);
  }

  /** In a two-object listing whose first object alone is unmarked data, that object is the one picked. */
  lemma PickDataFirst(listing: seq<Object>, suffix: string, marked: seq<string>)
    requires |listing| == 2
    requires HasSuffix(listing[0].key, suffix) && listing[0].key !in marked && !HasSuffix(listing[1].key, suffix)
    ensures Pick(listing, suffix, marked, false) == [listing[0]]
  {
    var first := listing[..1];
    assert first[..0] == [] && first[0] == listing[0];
    assert Pick(first, suffix, marked, false) == [listing[0]];
  }

  /** A request the crawler sends to the object store, in the order it sends them. */
  datatype Request = Get(key: string) | Put(key: string) | Delete(key: string)

  /** The step of processObject or cleanObject that returned an error. */
  datatype Failure = DownloadFailed | ParseFailed | WriteFailed | UploadFailed | DeleteFailed(key: string)

  /**
   * The bucket as a set of keys, with the log of requests sent to it.
   * Download, CSV parsing, the InfluxDB write and each store request
   * succeed or fail as the caller's `...Ok` arguments say.
   */
  class Store {
    var keys: set<string>
    var requests: seq<Request>

    constructor (initial: set<string>)
      ensures keys == initial && requests == []
    {
      keys := initial;
      requests := [];
    }

    /**
     * `processObject`: download, parse, write to InfluxDB, then upload the
     * marker. The marker is added only when all four succeed; the first
     * failing step is returned and leaves the keys unchanged.
     */
    method ProcessObject(o: Object, suffix: string, markerSuffix: string,
                         downloadOk: bool, parseOk: bool, writeOk: bool, uploadOk: bool)
      returns (err: Option<Failure>)
      modifies this
      ensures err == (if !downloadOk then Some(DownloadFailed)
                      else if !parseOk then Some(ParseFailed)
                      else if !writeOk then Some(WriteFailed)
                      else if !uploadOk then Some(UploadFailed)
                      else None)
      ensures keys == if err == None then old(keys) + {MarkerKey(o.key, suffix, markerSuffix)} else old(keys)
      ensures requests == old(requests) + [Get(o.key)] +
        (if downloadOk && parseOk && writeOk then [Put(MarkerKey(o.key, suffix, markerSuffix))] else [])
    {
      requests := requests + [Get(o.key)];
      if !downloadOk {
        return Some(DownloadFailed);
      }
      if !parseOk {
        return Some(ParseFailed);
      }
      if !writeOk {
        return Some(WriteFailed);
      }
      var markerFileName := ReplaceAll(o.key, suffix, markerSuffix);
      requests := requests + [Put(markerFileName)];
      if !uploadOk {
        return Some(UploadFailed);
      }
      keys := keys + {markerFileName};
      return None;
    }

    /**
     * `cleanObject`: an object strictly older than `maxAge` at instant `now`
     * is deleted, then its marker; a failed first delete stops before the
     * marker is touched. A younger object is left alone.
     */
    method CleanObject(o: Object, suffix: string, markerSuffix: string, now: int, maxAge: int,
                       dataDeleteOk: bool, markerDeleteOk: bool)
      returns (err: Option<Failure>)
      modifies this
      ensures now - o.lastModified <= maxAge ==> err == None && keys == old(keys) && requests == old(requests)
      ensures now - o.lastModified > maxAge ==>
        && requests == old(requests) + [Delete(o.key)] +
             (if dataDeleteOk then [Delete(MarkerKey(o.key, suffix, markerSuffix))] else [])
        && keys == old(keys) - (if dataDeleteOk then {o.key} else {}) -
             (if dataDeleteOk && markerDeleteOk then {MarkerKey(o.key, suffix, markerSuffix)} else {})
        && err == (if !dataDeleteOk then Some(DeleteFailed(o.key))
                   else if !markerDeleteOk then Some(DeleteFailed(MarkerKey(o.key, suffix, markerSuffix)))
                   else None)
    {
      if now - o.lastModified > maxAge {
        requests := requests + [Delete(o.key)];
        if !dataDeleteOk {
          return Some(DeleteFailed(o.key));
        }
        keys := keys - {o.key};
        var markerFileName := ReplaceAll(o.key, suffix, markerSuffix);
        requests := requests + [Delete(markerFileName)];
        if !markerDeleteOk {
          return Some(DeleteFailed(markerFileName));
        }
        keys := keys - {markerFileName};
      }
      return None;
    }
  }
}
