/**
 * `find_best_match`: a linear scan of the reference folder for the image
 * whose perceptual hash is nearest the query's, accepted only below a fixed
 * threshold, the first one seen winning a tie.
 *
 * The folder listing is a sequence of entries in `os.listdir` order. Each
 * entry carries the fingerprint its image would hash to, or `None` when
 * opening or hashing it raises (the `except: continue` path). The query is
 * likewise `None` when hashing the uploaded image raises.
 */
module Processor {
  import opened Wrappers
  import opened Text
  import opened Fingerprints

  /** One name of the reference folder, with the outcome of hashing its image. */
  datatype Entry = Entry(name: string, hash: Option<Fingerprint>)

  /** A candidate is accepted only if fewer bits than this differ. */
  const Threshold: nat := 10

  /** The running minimum's starting value, above every real distance. */
  const InitialLowest: nat := 100

  /** The extension filter of the scan: `.png`, `.jpg` or `.jpeg`, in any case. */
  predicate IsImageName(name: string): (r: bool)
    ensures r ==> |name| >= 4
  {
    var lower := Lower(name);
    EndsWith(lower, ".png") || EndsWith(lower, ".jpg") || EndsWith(lower, ".jpeg")
  }

  /** A name the filter accepts has a dot just before its last three or four characters. */
  lemma ImageNameHasDot(name: string)
    requires IsImageName(name)
    ensures exists k :: |name| - 5 <= k <= |name| - 4 && 0 <= k && name[k] == '.'
  {
    var lower := Lower(name);
    var k, suffix := |name| - 4, ".png";
    if EndsWith(lower, ".jpg") {
      suffix := ".jpg";
    } else if EndsWith(lower, ".jpeg") {
      k, suffix := |name| - 5, ".jpeg";
    }
    assert EndsWith(lower, suffix) && k == |lower| - |suffix|;
    assert lower[k] == suffix[0] == '.';
    assert UpperChar(name[k]) == UpperChar(lower[k]);
  }

  /** The filter ignores case: a name and its lower-cased form pass or fail together. */
  lemma ImageNameIgnoresCase(name: string)
    ensures IsImageName(Lower(name)) <==> IsImageName(name)
  {
    LowerIdempotent(name);
  }

  /**
   * The entry gets as far as the distance computation without raising: its
   * name passes the filter, its image hashes, and the two hashes have the
   * same shape (subtracting hashes of different shapes raises).
   */
  predicate Comparable(query: Fingerprint, e: Entry): (r: bool)
    ensures r ==> e.hash.Some? && |e.hash.value| == |query| && Distance(query, e.hash.value) <= |query|
  {
    IsImageName(e.name) && e.hash.Some? && |e.hash.value| == |query|
  }

  function EntryDistance(query: Fingerprint, e: Entry): nat
    requires Comparable(query, e)
  {
    Distance(query, e.hash.value)
  }

  /** Close enough to be a match at all. */
  predicate Candidate(query: Fingerprint, e: Entry): (r: bool)
    ensures Comparable(query, e) && e.hash.value == query ==> r
  {
    Comparable(query, e) && EntryDistance(query, e) < Threshold
  }

  /** The pair of loop variables `best_match_filename`, `lowest_diff`. */
  datatype ScanState = ScanState(best: Option<string>, lowest: nat)

  const Start := ScanState(None, InitialLowest)

  /** One iteration of the loop body. */
  function Step(query: Fingerprint, st: ScanState, e: Entry): (r: ScanState)
    ensures r == st || (Candidate(query, e) && r.best == Some(e.name)
                        && r.lowest == EntryDistance(query, e) < st.lowest)
  {
    if Comparable(query, e) && EntryDistance(query, e) < Threshold && EntryDistance(query, e) < st.lowest
    then ScanState(Some(e.name), EntryDistance(query, e))
    else st
  }

  /**
   * The loop run over `listing` from the state `st`: the minimum only goes
   * down, and a state that changes at all ends holding a candidate's name.
   */
  function ScanFrom(query: Fingerprint, st: ScanState, listing: seq<Entry>): (r: ScanState)
    ensures r.lowest <= st.lowest
    ensures r == st || (r.best.Some? && r.lowest < Threshold)
  {
    if listing == [] then st
    else Step(query, ScanFrom(query, st, listing[..|listing| - 1]), listing[|listing| - 1])
  }

  /** The loop run over a prefix of the listing, from the initial state. */
  function Scan(query: Fingerprint, listing: seq<Entry>): (r: ScanState)
    ensures r.best.None? <==> r.lowest == InitialLowest
    ensures r.best.Some? ==> r.lowest < Threshold
  {
    ScanFrom(query, Start, listing)
  }

  /** The whole function: `None` when the query cannot be hashed or the folder is missing. */
  function BestMatch(query: Option<Fingerprint>, folderExists: bool, listing: seq<Entry>): (r: Option<string>)
    ensures r.Some? ==> query.Some? && folderExists && Scan(query.value, listing).lowest < Threshold
  {
    if query.None? || !folderExists then None else Scan(query.value, listing).best
  }

  /**
   * Entry `k` is the answer the scan promises: a candidate, no farther than
   * any comparable entry, and strictly nearer than every comparable entry
   * before it.
   */
  ghost predicate IsFirstNearest(query: Fingerprint, listing: seq<Entry>, k: int)
  {
    && 0 <= k < |listing|
    && Candidate(query, listing[k])
    && (forall j :: 0 <= j < |listing| && Comparable(query, listing[j]) ==>
          EntryDistance(query, listing[k]) <= EntryDistance(query, listing[j]))
    && (forall j :: 0 <= j < k && Comparable(query, listing[j]) ==>
          EntryDistance(query, listing[k]) < EntryDistance(query, listing[j]))
  }

  /** What the loop keeps true of its state after each prefix of the listing. */
  ghost predicate ScanInvariant(query: Fingerprint, listing: seq<Entry>, st: ScanState)
  {
    && (st.best.None? <==> st.lowest == InitialLowest)
    && (st.best.None? ==> forall k :: 0 <= k < |listing| ==> !Candidate(query, listing[k]))
    && (st.best.Some? ==> exists k :: IsFirstNearest(query, listing, k)
                                      && listing[k].name == st.best.value
                                      && st.lowest == EntryDistance(query, listing[k]))
  }

  /** A step over one more entry keeps the invariant. */
  lemma StepKeepsInvariant(query: Fingerprint, listing: seq<Entry>, st: ScanState, e: Entry)
    requires ScanInvariant(query, listing, st)
    ensures ScanInvariant(query, listing + [e], Step(query, st, e))
  {
    var s' := listing + [e];
    if st.best.Some? {
      var k :| IsFirstNearest(query, listing, k) && listing[k].name == st.best.value
                && st.lowest == EntryDistance(query, listing[k]);
      if Step(query, st, e) == st {
        assert IsFirstNearest(query, s', k);
      } else {
        assert IsFirstNearest(query, s', |listing|);
      }
    } else {
      if Step(query, st, e) != st {
        assert IsFirstNearest(query, s', |listing|);
      }
    }
  }

  lemma {:induction false} ScanKeepsInvariant(query: Fingerprint, listing: seq<Entry>)
    ensures ScanInvariant(query, listing, Scan(query, listing))
  {
    if listing != [] {
      var n := |listing| - 1;
      ScanKeepsInvariant(query, listing[..n]);
      StepKeepsInvariant(query, listing[..n], Scan(query, listing[..n]), listing[n]);
      assert listing[..n] + [listing[n]] == listing;
    }
  }

  /** At most one entry is the first nearest: the tie-break is deterministic. */
  lemma FirstNearestUnique(query: Fingerprint, listing: seq<Entry>, k1: int, k2: int)
    requires IsFirstNearest(query, listing, k1) && IsFirstNearest(query, listing, k2)
    ensures k1 == k2
  {
  }

  /**
   * What `find_best_match` promises: a name only when the query and the
   * folder are there and some entry is a candidate, and then the name of
   * the first nearest entry, which is an image name within the threshold.
   */
  lemma BestMatchSpec(query: Option<Fingerprint>, folderExists: bool, listing: seq<Entry>)
    ensures BestMatch(query, folderExists, listing).None? <==>
              query.None? || !folderExists ||
              forall k :: 0 <= k < |listing| ==> !Candidate(query.value, listing[k])
    ensures BestMatch(query, folderExists, listing).Some? ==>
              && query.Some?
              && exists k :: IsFirstNearest(query.value, listing, k)
                             && listing[k].name == BestMatch(query, folderExists, listing).value
  {
    if query.Some? && folderExists {
      ScanKeepsInvariant(query.value, listing);
      var st := Scan(query.value, listing);
      if st.best.Some? {
        var k :| IsFirstNearest(query.value, listing, k) && listing[k].name == st.best.value
                  && st.lowest == EntryDistance(query.value, listing[k]);
        assert Candidate(query.value, listing[k]);
      }
    }
  }

  /** A returned name passes the extension filter and is within the threshold. */
  lemma BestMatchWithinThreshold(query: Option<Fingerprint>, folderExists: bool, listing: seq<Entry>)
    requires BestMatch(query, folderExists, listing).Some?
    ensures query.Some?
    ensures IsImageName(BestMatch(query, folderExists, listing).value)
    ensures exists k :: 0 <= k < |listing| && listing[k].name == BestMatch(query, folderExists, listing).value
                        && Comparable(query.value, listing[k])
                        && EntryDistance(query.value, listing[k]) < Threshold
  {
    BestMatchSpec(query, folderExists, listing);
    var k :| IsFirstNearest(query.value, listing, k)
              && listing[k].name == BestMatch(query, folderExists, listing).value;
  }

  /** Scanning a concatenation runs the second part from the first part's state. */
  lemma {:induction false} ScanAppend(query: Fingerprint, a: seq<Entry>, b: seq<Entry>)
    ensures Scan(query, a + b) == ScanFrom(query, Scan(query, a), b)
  {
    if b != [] {
      var n := |b| - 1;
      ScanAppend(query, a, b[..n]);
      assert (a + b)[..|a + b| - 1] == a + b[..n];
    } else {
      assert a + b == a;
    }
  }

  /**
   * An entry that raises while being opened, hashed or compared, or that
   * the extension filter drops, changes nothing for the entries around it.
   */
  lemma SkippedEntryIsInvisible(query: Fingerprint, a: seq<Entry>, e: Entry, b: seq<Entry>)
    requires !Comparable(query, e)
    ensures Scan(query, a + [e] + b) == Scan(query, a + b)
  {
    ScanAppend(query, a + [e], b);
    ScanAppend(query, a, b);
    assert (a + [e])[..|a + [e]| - 1] == a;
  }

  /** The loop of `find_best_match`, with its early exits. */
  method FindBestMatch(query: Option<Fingerprint>, folderExists: bool, listing: seq<Entry>)
    returns (best: Option<string>)
    ensures best == BestMatch(query, folderExists, listing)
    ensures best.None? <==>
              query.None? || !folderExists ||
              forall k :: 0 <= k < |listing| ==> !Candidate(query.value, listing[k])
    ensures best.Some? ==>
              && query.Some?
              && exists k :: IsFirstNearest(query.value, listing, k) && listing[k].name == best.value
  {
    if query.None? {
      return None;
    }
    var uploaded := query.value;
    best := None;
    var lowest: nat := InitialLowest;
    if !folderExists {
      return None;
    }
    for i := 0 to |listing|
      invariant ScanState(best, lowest) == Scan(uploaded, listing[..i])
    {
      var entry := listing[i];
      if IsImageName(entry.name) {
        if entry.hash.Some? && |entry.hash.value| == |uploaded| {
          var diff := Distance(uploaded, entry.hash.value);
          if diff < Threshold && diff < lowest {
            lowest := diff;
            best := Some(entry.name);
          }
        }
      }
      assert listing[..i + 1][..i] == listing[..i];
    }
    assert listing[..|listing|] == listing;
    BestMatchSpec(query, folderExists, listing);
  }
}
