/** The persisted dataset record, its upload path and string form, and the
    dataset table with its create-then-prune retention (global: at most five
    datasets in all, the most recent by `uploaded_at`). */
module Models {
  import opened Wrappers
  import opened Strings
  import opened Files

  /** How many datasets `Dataset.save` keeps. */
  const RetentionLimit: nat := 5

  // ------------------------------------------------------------------
  // Record shapes (the JSON fields of a dataset, as typed values).
  // ------------------------------------------------------------------

  /** One validated equipment row, under its canonical column names. A text
      cell that `read_csv` reads as missing (NaN) is `None`. */
  datatype Record = Record(equipmentName: Option<string>, equipmentType: Option<string>,
                           flowrate: real, pressure: real, temperature: real)

  /** One entry of `type_distribution`, in key order. */
  datatype TypeCount = TypeCount(equipmentType: string, count: nat)

  /** One highlight: the row's name and type, and the value of `column`. */
  datatype Highlight = Highlight(equipmentName: Option<string>, equipmentType: Option<string>,
                                 column: string, value: real)

  /** `metrics`: exactly the three highlights the pipeline computes. */
  datatype Metrics = Metrics(maxFlowrate: Highlight, minFlowrate: Highlight,
                             maxTemperature: Highlight)

  /** The blob behind `original_file`: its storage path and its bytes. */
  datatype StoredFile = StoredFile(path: string, content: seq<byte>)

  /** A dataset row. `id` stands for the UUID, `uploadedAt` for the
      `auto_now_add` timestamp (one integer per instant). */
  datatype Dataset = Dataset(
    id: nat,
    name: string,
    sourceFilename: string,
    originalFile: StoredFile,
    uploadedAt: int,
    totalRecords: nat,
    avgFlowrate: real,
    avgPressure: real,
    avgTemperature: real,
    typeDistribution: seq<TypeCount>,
    metrics: Metrics,
    records: seq<Record>)

  // ------------------------------------------------------------------
  // dataset_upload_path and __str__
  // ------------------------------------------------------------------

  datatype DateTime = DateTime(year: nat, month: nat, day: nat,
                               hour: nat, minute: nat, second: nat)

  predicate ValidDateTime(t: DateTime)
  {
    1000 <= t.year <= 9999 && 1 <= t.month <= 12 && 1 <= t.day <= 31
    && t.hour < 24 && t.minute < 60 && t.second < 60
  }

  /** `strftime("%Y%m%d%H%M%S")`. */
  function Timestamp14(t: DateTime): (s: string)
    ensures |s| == 14 && AllDigits(s)
  {
    Pad(t.year, 4) + Pad(t.month, 2) + Pad(t.day, 2)
    + Pad(t.hour, 2) + Pad(t.minute, 2) + Pad(t.second, 2)
  }

  /** Reads a 14-digit `YYYYMMDDHHMMSS` string back. */
  function ParseTimestamp14(s: string): DateTime
    requires |s| == 14 && AllDigits(s)
  {
    DateTime(ParseDigits(s[0..4]), ParseDigits(s[4..6]), ParseDigits(s[6..8]),
             ParseDigits(s[8..10]), ParseDigits(s[10..12]), ParseDigits(s[12..14]))
  }

  /** `dataset_upload_path`: where the original upload is stored. */
  function DatasetUploadPath(now: DateTime, filename: string): string
  {
    "datasets/" + Timestamp14(now) + "_" + filename
  }

  /** The path is `datasets/`, fourteen digits that read back as the upload
      instant, `_`, and the file name unchanged. */
  lemma UploadPathShape(now: DateTime, filename: string)
    requires ValidDateTime(now)
    ensures var p := DatasetUploadPath(now, filename);
            |p| == 24 + |filename| && p[..9] == "datasets/"
            && AllDigits(p[9..23]) && ParseTimestamp14(p[9..23]) == now
            && p[23] == '_' && p[24..] == filename
  {
    var p := DatasetUploadPath(now, filename);
    var ts := Timestamp14(now);
    assert p[9..23] == ts;
    assert ts[0..4] == Pad(now.year, 4);
    assert ts[4..6] == Pad(now.month, 2);
    assert ts[6..8] == Pad(now.day, 2);
    assert ts[8..10] == Pad(now.hour, 2);
    assert ts[10..12] == Pad(now.minute, 2);
    assert ts[12..14] == Pad(now.second, 2);
    ParsePad(now.year, 4);
    ParsePad(now.month, 2);
    ParsePad(now.day, 2);
    ParsePad(now.hour, 2);
    ParsePad(now.minute, 2);
    ParsePad(now.second, 2);
  }

  /** `Dataset.__str__`. */
  function DatasetLabel(d: Dataset): string
  {
    d.name + " (" + NatToString(d.totalRecords) + " records)"
  }

  /** The label is the name, then ` (`, the record count in decimal, and
      ` records)`; the count reads back from the label. */
  lemma DatasetLabelShape(d: Dataset)
    ensures var s := DatasetLabel(d);
            |s| == |d.name| + |NatToString(d.totalRecords)| + 11
            && s[..|d.name|] == d.name
            && s[|d.name|..|d.name| + 2] == " ("
            && EndsWith(s, " records)")
            && AllDigits(s[|d.name| + 2..|s| - 9])
            && ParseDigits(s[|d.name| + 2..|s| - 9]) == d.totalRecords
  {
    var s := DatasetLabel(d);
    var n := NatToString(d.totalRecords);
    assert s[|d.name| + 2..|s| - 9] == n;
    NatToStringRoundTrip(d.totalRecords);
  }

  // ------------------------------------------------------------------
  // Ordering (Meta.ordering = ["-uploaded_at"]) and retention.
  // ------------------------------------------------------------------

  function Min(a: nat, b: nat): nat { if a < b then a else b }

  function IdSet(s: seq<Dataset>): set<nat>
  {
    set x | x in s :: x.id
  }

  predicate DistinctIds(s: seq<Dataset>)
  {
    forall i, j :: 0 <= i < j < |s| ==> s[i].id != s[j].id
  }

  predicate MostRecentFirst(s: seq<Dataset>)
  {
    forall i, j :: 0 <= i < j < |s| ==> s[i].uploadedAt >= s[j].uploadedAt
  }

  /** Strictly increasing `uploaded_at` in row order. */
  predicate Chronological(s: seq<Dataset>)
  {
    forall i, j :: 0 <= i < j < |s| ==> s[i].uploadedAt < s[j].uploadedAt
  }

  lemma IdSetSnoc(s: seq<Dataset>, d: Dataset)
    ensures IdSet(s + [d]) == IdSet(s) + {d.id}
  {
    assert forall x :: x in s + [d] <==> x in s || x == d;
  }

  /** Two rows of a table with distinct ids and the same id are the same row. */
  lemma SameIdSameRow(s: seq<Dataset>, a: Dataset, b: Dataset)
    requires DistinctIds(s) && a in s && b in s && a.id == b.id
    ensures a == b
  {
    var i :| 0 <= i < |s| && s[i] == a;
    var j :| 0 <= j < |s| && s[j] == b;
    assert !(i < j) && !(j < i);
  }

  /** A row whose id is not in the table's id set differs in id from every row. */
  lemma NotInIdSet(s: seq<Dataset>, id: nat)
    requires id !in IdSet(s)
    ensures forall i :: 0 <= i < |s| ==> s[i].id != id
  {
    forall i | 0 <= i < |s| ensures s[i].id != id {
      assert s[i] in s;
    }
  }

  /** Inserts `d` ahead of the first row that is not newer than it. */
  function InsertByRecency(d: Dataset, s: seq<Dataset>): (r: seq<Dataset>)
    requires MostRecentFirst(s)
    ensures MostRecentFirst(r)
    ensures multiset(r) == multiset(s) + multiset{d} && |r| == |s| + 1
  {
    if s == [] || d.uploadedAt >= s[0].uploadedAt then [d] + s
    else
      var rest := InsertByRecency(d, s[1..]);
      ConsMultiset(s, rest, d);
      TailNotNewer(s);
      PermutationNotNewer(rest, s[1..], d, s[0].uploadedAt);
      ConsNewest(s[0], rest);
      [s[0]] + rest
  }

  lemma ConsMultiset(s: seq<Dataset>, rest: seq<Dataset>, d: Dataset)
    requires s != [] && multiset(rest) == multiset(s[1..]) + multiset{d}
    ensures multiset([s[0]] + rest) == multiset(s) + multiset{d}
  {
    assert s == [s[0]] + s[1..];
  }

  /** No row after the head of a most-recent-first table is newer than it. */
  lemma TailNotNewer(s: seq<Dataset>)
    requires MostRecentFirst(s) && s != []
    ensures forall j :: 0 <= j < |s[1..]| ==> s[1..][j].uploadedAt <= s[0].uploadedAt
  {
    forall j | 0 <= j < |s[1..]| ensures s[1..][j].uploadedAt <= s[0].uploadedAt {
      assert s[1..][j] == s[j + 1];
    }
  }

  /** A bound on every row of `s` and on `d` bounds every row of a
      rearrangement of `s + [d]`. */
  lemma PermutationNotNewer(r: seq<Dataset>, s: seq<Dataset>, d: Dataset, hi: int)
    requires multiset(r) == multiset(s) + multiset{d}
    requires forall j :: 0 <= j < |s| ==> s[j].uploadedAt <= hi
    requires d.uploadedAt <= hi
    ensures forall j :: 0 <= j < |r| ==> r[j].uploadedAt <= hi
  {
    forall j | 0 <= j < |r| ensures r[j].uploadedAt <= hi {
      assert r[j] in multiset(r);
      if r[j] != d {
        assert r[j] in multiset(s);
        var k :| 0 <= k < |s| && s[k] == r[j];
      }
    }
  }

  /** A row no older than every row of a most-recent-first table can head it. */
  lemma ConsNewest(x: Dataset, r: seq<Dataset>)
    requires MostRecentFirst(r)
    requires forall j :: 0 <= j < |r| ==> r[j].uploadedAt <= x.uploadedAt
    ensures MostRecentFirst([x] + r)
  {
    forall i, j | 0 <= i < j < |[x] + r| ensures ([x] + r)[i].uploadedAt >= ([x] + r)[j].uploadedAt {
      assert ([x] + r)[j] == r[j - 1];
      if i > 0 {
        assert ([x] + r)[i] == r[i - 1];
      }
    }
  }

  lemma {:induction false} InsertByRecencyDistinct(d: Dataset, s: seq<Dataset>)
    requires MostRecentFirst(s) && DistinctIds(s) && d.id !in IdSet(s)
    ensures DistinctIds(InsertByRecency(d, s))
  {
    NotInIdSet(s, d.id);
    if s != [] && d.uploadedAt < s[0].uploadedAt {
      var rest := InsertByRecency(d, s[1..]);
      assert IdSet(s[1..]) <= IdSet(s);
      InsertByRecencyDistinct(d, s[1..]);
      forall j | 0 <= j < |rest| ensures s[0].id != rest[j].id {
        assert rest[j] in multiset(rest);
        if rest[j] != d {
          assert rest[j] in s[1..];
          var k :| 0 <= k < |s[1..]| && s[1..][k] == rest[j];
          assert s[k + 1] == rest[j];
        }
      }
    }
  }

  /** The rows in `Meta.ordering` order, most recent first; among rows with
      the same `uploaded_at`, the later-inserted row comes first. */
  function ByRecency(s: seq<Dataset>): (r: seq<Dataset>)
    ensures MostRecentFirst(r)
    ensures multiset(r) == multiset(s) && |r| == |s|
  {
    if s == [] then []
    else
      var p := s[..|s| - 1];
      assert s == p + [s[|s| - 1]];
      InsertByRecency(s[|s| - 1], ByRecency(p))
  }

  /** Reordering keeps the rows and their ids. */
  lemma ByRecencyMembers(s: seq<Dataset>)
    ensures forall x :: x in ByRecency(s) <==> x in s
    ensures IdSet(ByRecency(s)) == IdSet(s)
  {
    var r := ByRecency(s);
    assert forall x :: x in r <==> x in multiset(r);
    assert forall x :: x in s <==> x in multiset(s);
  }

  /** Reordering keeps ids distinct. */
  lemma {:induction false} ByRecencyDistinct(s: seq<Dataset>)
    requires DistinctIds(s)
    ensures DistinctIds(ByRecency(s))
  {
    if s != [] {
      var p := s[..|s| - 1];
      var d := s[|s| - 1];
      assert s == p + [d];
      ByRecencyDistinct(p);
      ByRecencyMembers(p);
      assert d.id !in IdSet(p) by {
        forall x | x in p ensures x.id != d.id {
          var i :| 0 <= i < |p| && p[i] == x;
          assert s[i].id != s[|s| - 1].id;
        }
      }
      InsertByRecencyDistinct(d, ByRecency(p));
    }
  }

  /** The rows whose id is in `keep`, in row order. */
  function KeepIds(s: seq<Dataset>, keep: set<nat>): (r: seq<Dataset>)
    ensures forall x {:trigger x in r} :: x in r <==> x in s && x.id in keep
    ensures |r| <= |s|
  {
    if s == [] then []
    else
      var p := s[..|s| - 1];
      assert s == p + [s[|s| - 1]];
      KeepIds(p, keep) + (if s[|s| - 1].id in keep then [s[|s| - 1]] else [])
  }

  /** `order_by("-uploaded_at").values_list("id")[:5]`. */
  function PreservedIds(s: seq<Dataset>): set<nat>
  {
    var r := ByRecency(s);
    IdSet(r[..Min(|r|, RetentionLimit)])
  }

  /** The table after the prune in `Dataset.save`:
      `exclude(id__in=preserved_ids).delete()`. */
  function Retain(s: seq<Dataset>): seq<Dataset>
  {
    KeepIds(s, PreservedIds(s))
  }

  lemma KeepIdsSnoc(s: seq<Dataset>, d: Dataset, keep: set<nat>)
    ensures KeepIds(s + [d], keep) == KeepIds(s, keep) + (if d.id in keep then [d] else [])
  {
    assert (s + [d])[..|s|] == s;
  }

  /** The last row's id does not occur earlier in a table with distinct ids. */
  lemma LastIdFresh(s: seq<Dataset>)
    requires DistinctIds(s) && s != []
    ensures s[|s| - 1].id !in IdSet(s[..|s| - 1])
  {
    var p := s[..|s| - 1];
    forall x | x in p ensures x.id != s[|s| - 1].id {
      var i :| 0 <= i < |p| && p[i] == x;
      assert s[i] == x;
    }
  }

  lemma {:induction false} IdSetSize(s: seq<Dataset>)
    requires DistinctIds(s)
    ensures |IdSet(s)| == |s|
  {
    if s != [] {
      var p := s[..|s| - 1];
      var d := s[|s| - 1];
      assert s == p + [d];
      IdSetSnoc(p, d);
      IdSetSize(p);
      LastIdFresh(s);
    }
  }

  lemma {:induction false} KeepIdsSize(s: seq<Dataset>, keep: set<nat>)
    requires DistinctIds(s)
    ensures |KeepIds(s, keep)| == |keep * IdSet(s)|
  {
    if s == [] {
      assert IdSet(s) == {};
    } else {
      var p := s[..|s| - 1];
      var d := s[|s| - 1];
      assert s == p + [d];
      DistinctPrefix(s);
      KeepIdsSize(p, keep);
      LastIdFresh(s);
      KeepIdsSizeStep(p, d, keep);
    }
  }

  /** Removing the last row keeps ids distinct. */
  lemma DistinctPrefix(s: seq<Dataset>)
    requires DistinctIds(s) && s != []
    ensures DistinctIds(s[..|s| - 1])
  {
  }

  /** Appending a row with a fresh id adds one to the kept count exactly
      when its id is kept. */
  lemma KeepIdsSizeStep(p: seq<Dataset>, d: Dataset, keep: set<nat>)
    requires d.id !in IdSet(p)
    requires |KeepIds(p, keep)| == |keep * IdSet(p)|
    ensures |KeepIds(p + [d], keep)| == |keep * IdSet(p + [d])|
  {
    IdSetSnoc(p, d);
    KeepIdsSnoc(p, d, keep);
    IntersectAdd(keep, IdSet(p), d.id);
  }

  lemma IntersectAdd(keep: set<nat>, a: set<nat>, x: nat)
    requires x !in a
    ensures |keep * (a + {x})| == |keep * a| + (if x in keep then 1 else 0)
  {
    if x in keep {
      assert keep * (a + {x}) == (keep * a) + {x};
    } else {
      assert keep * (a + {x}) == keep * a;
    }
  }

  lemma {:induction false} KeepIdsDistinct(s: seq<Dataset>, keep: set<nat>)
    requires DistinctIds(s)
    ensures DistinctIds(KeepIds(s, keep))
  {
    if s != [] {
      var p := s[..|s| - 1];
      var d := s[|s| - 1];
      assert s == p + [d];
      KeepIdsSnoc(p, d, keep);
      KeepIdsDistinct(p, keep);
      LastIdFresh(s);
      var kp := KeepIds(p, keep);
      forall i | 0 <= i < |kp| ensures kp[i].id != d.id {
        assert kp[i] in kp;
      }
    }
  }

  lemma {:induction false} KeepAll(s: seq<Dataset>, keep: set<nat>)
    requires IdSet(s) <= keep
    ensures KeepIds(s, keep) == s
  {
    if s != [] {
      var p := s[..|s| - 1];
      var d := s[|s| - 1];
      assert s == p + [d];
      IdSetSnoc(p, d);
      KeepIdsSnoc(p, d, keep);
      KeepAll(p, keep);
    }
  }

  /** After the prune, at most five rows remain: exactly five when there were
      at least five; ids stay distinct. */
  lemma RetainSize(s: seq<Dataset>)
    requires DistinctIds(s)
    ensures |Retain(s)| == Min(|s|, RetentionLimit)
    ensures DistinctIds(Retain(s))
  {
    var r := ByRecency(s);
    ByRecencyMembers(s);
    ByRecencyDistinct(s);
    var top := r[..Min(|r|, RetentionLimit)];
    IdSetSize(top);
    assert IdSet(top) <= IdSet(r) by {
      forall x | x in top ensures x in r {
      }
    }
    assert IdSet(top) * IdSet(s) == IdSet(top);
    KeepIdsSize(s, IdSet(top));
    KeepIdsDistinct(s, IdSet(top));
  }

  /** Every row of a prefix of `r` has its id in the prefix's id set. */
  lemma PrefixIds(r: seq<Dataset>, k: nat)
    requires k <= |r|
    ensures forall j :: 0 <= j < k ==> r[j].id in IdSet(r[..k])
  {
    forall j | 0 <= j < k ensures r[j].id in IdSet(r[..k]) {
      assert r[..k][j] in r[..k];
    }
  }

  /** A row whose id is among the preserved ids is at least as recent as any
      row whose id is not. */
  lemma PreservedIsNewer(s: seq<Dataset>, d: Dataset, e: Dataset)
    requires DistinctIds(s) && d in s && e in s
    requires d.id in PreservedIds(s) && e.id !in PreservedIds(s)
    ensures e.uploadedAt <= d.uploadedAt
  {
    var r := ByRecency(s);
    var k := Min(|r|, RetentionLimit);
    ByRecencyMembers(s);
    PrefixIds(r, k);
    var x :| x in r[..k] && x.id == d.id;
    var i :| 0 <= i < k && r[..k][i] == x;
    SameIdSameRow(s, r[i], d);
    var j :| 0 <= j < |r| && r[j] == e;
    assert k <= j;
  }

  /** No kept row is older than any deleted row: the survivors are the most
      recent ones. */
  lemma RetainKeepsMostRecent(s: seq<Dataset>)
    requires DistinctIds(s)
    ensures forall d, e :: d in Retain(s) && e in s && e !in Retain(s) ==> e.uploadedAt <= d.uploadedAt
  {
    var keep := PreservedIds(s);
    var kept := KeepIds(s, keep);
    assert Retain(s) == kept;
    forall d, e | d in kept && e in s && e !in kept
      ensures e.uploadedAt <= d.uploadedAt
    {
      PreservedIsNewer(s, d, e);
    }
  }

  /** Five rows or fewer: the prune deletes nothing. */
  lemma RetainSmallIsIdentity(s: seq<Dataset>)
    requires DistinctIds(s) && |s| <= RetentionLimit
    ensures Retain(s) == s
  {
    var r := ByRecency(s);
    ByRecencyMembers(s);
    assert r[..Min(|r|, RetentionLimit)] == r;
    KeepAll(s, IdSet(r));
  }

  /** A second prune with no insert in between changes nothing. */
  lemma RetainIdempotent(s: seq<Dataset>)
    requires DistinctIds(s)
    ensures Retain(Retain(s)) == Retain(s)
  {
    RetainSize(s);
    RetainSmallIsIdentity(Retain(s));
  }

  /** A row at least as recent as every other row is listed first. */
  lemma ByRecencySnocNewest(s: seq<Dataset>, d: Dataset)
    requires forall e :: e in s ==> e.uploadedAt <= d.uploadedAt
    ensures ByRecency(s + [d]) == [d] + ByRecency(s)
  {
    var t := s + [d];
    assert t[..|t| - 1] == s;
    var rs := ByRecency(s);
    ByRecencyMembers(s);
    if rs != [] {
      assert rs[0] in rs;
    }
  }

  /** A just-inserted row at least as recent as every other row survives its
      own prune and heads the listing. */
  lemma NewestSurvivesSave(s: seq<Dataset>, d: Dataset)
    requires forall e :: e in s ==> e.uploadedAt <= d.uploadedAt
    ensures d in Retain(s + [d])
    ensures ByRecency(Retain(s + [d]))[0] == d
  {
    var t := s + [d];
    ByRecencySnocNewest(s, d);
    var r := ByRecency(t);
    assert r[0] == d;
    var k := Min(|r|, RetentionLimit);
    PrefixIds(r, k);
    var keep := PreservedIds(t);
    assert keep == IdSet(r[..k]);
    assert d.id in keep;
    KeepIdsSnoc(s, d, keep);
    var kept := KeepIds(s, keep);
    assert Retain(t) == kept + [d];
    ByRecencySnocNewest(kept, d);
  }

  // ------------------------------------------------------------------
  // Sequential uploads with increasing timestamps.
  // ------------------------------------------------------------------

  function Reverse(s: seq<Dataset>): (r: seq<Dataset>)
    ensures |r| == |s| && forall i :: 0 <= i < |s| ==> r[i] == s[|s| - 1 - i]
  {
    if s == [] then [] else [s[|s| - 1]] + Reverse(s[..|s| - 1])
  }

  lemma {:induction false} ByRecencyChronological(s: seq<Dataset>)
    requires Chronological(s)
    ensures ByRecency(s) == Reverse(s)
  {
    if s != [] {
      var p := s[..|s| - 1];
      ByRecencyChronological(p);
      if p != [] {
        assert Reverse(p)[0] == s[|s| - 2];
      }
    }
  }

  /** When the kept rows are exactly those from position `m` on, the prune
      leaves that suffix. */
  lemma KeepSuffix(s: seq<Dataset>, keep: set<nat>, m: nat)
    requires m <= |s|
    requires forall i :: 0 <= i < |s| ==> (s[i].id in keep <==> m <= i)
    ensures KeepIds(s, keep) == s[m..]
  {
    var a, b := s[..m], s[m..];
    assert s == a + b;
    KeepIdsAppend(a, b, keep);
    assert forall i :: 0 <= i < |a| ==> a[i] == s[i];
    KeepNone(a, keep);
    assert IdSet(b) <= keep by {
      forall x | x in b ensures x.id in keep {
        var i :| 0 <= i < |b| && b[i] == x;
        assert s[m + i] == x;
      }
    }
    KeepAll(b, keep);
  }

  /** No row of `a` is kept. */
  lemma KeepNone(a: seq<Dataset>, keep: set<nat>)
    requires forall i :: 0 <= i < |a| ==> a[i].id !in keep
    ensures KeepIds(a, keep) == []
  {
    var r := KeepIds(a, keep);
    assert forall i :: 0 <= i < |r| ==> r[i] in r;
  }

  /** The prune works row by row: it distributes over concatenation. */
  lemma {:induction false} KeepIdsAppend(a: seq<Dataset>, b: seq<Dataset>, keep: set<nat>)
    ensures KeepIds(a + b, keep) == KeepIds(a, keep) + KeepIds(b, keep)
  {
    if b == [] {
      assert a + b == a;
    } else {
      var c := b[..|b| - 1];
      var d := b[|b| - 1];
      assert b == c + [d];
      assert a + b == (a + c) + [d];
      KeepIdsSnoc(a + c, d, keep);
      KeepIdsSnoc(c, d, keep);
      KeepIdsAppend(a, c, keep);
    }
  }

  /** In a chronological table, a row's id is preserved exactly when the row
      is among the last five. */
  lemma ChronologicalPreserved(s: seq<Dataset>, i: nat)
    requires Chronological(s) && DistinctIds(s) && i < |s|
    ensures s[i].id in PreservedIds(s) <==> |s| - Min(|s|, RetentionLimit) <= i
  {
    ByRecencyChronological(s);
    var r := Reverse(s);
    var k := Min(|s|, RetentionLimit);
    assert PreservedIds(s) == IdSet(r[..k]);
    PrefixIds(r, k);
    if |s| - k <= i {
      assert r[|s| - 1 - i] == s[i];
    }
    if s[i].id in IdSet(r[..k]) {
      var x :| x in r[..k] && x.id == s[i].id;
      var j :| 0 <= j < k && r[..k][j] == x;
      assert r[j] == s[|s| - 1 - j];
    }
  }

  /** With strictly increasing `uploaded_at`, the prune keeps the last five rows. */
  lemma RetainChronological(s: seq<Dataset>)
    requires Chronological(s) && DistinctIds(s)
    ensures Retain(s) == s[|s| - Min(|s|, RetentionLimit)..]
  {
    var keep := PreservedIds(s);
    var m := |s| - Min(|s|, RetentionLimit);
    forall i | 0 <= i < |s| ensures s[i].id in keep <==> m <= i {
      ChronologicalPreserved(s, i);
    }
    KeepSuffix(s, keep, m);
  }

  /** A slice of a chronological table with distinct ids is one too. */
  lemma SliceOrdered(u: seq<Dataset>, a: nat, b: nat)
    requires a <= b <= |u| && Chronological(u) && DistinctIds(u)
    ensures Chronological(u[a..b]) && DistinctIds(u[a..b])
  {
    var v := u[a..b];
    assert forall i :: 0 <= i < |v| ==> v[i] == u[a + i];
  }

  /** The table after `uploads` are saved one after another into an empty table. */
  function History(uploads: seq<Dataset>): seq<Dataset>
  {
    if uploads == [] then []
    else Retain(History(uploads[..|uploads| - 1]) + [uploads[|uploads| - 1]])
  }

  /** Sequential uploads with increasing timestamps leave exactly the last
      five, in upload order. */
  lemma {:induction false} HistoryKeepsLastFive(uploads: seq<Dataset>)
    requires Chronological(uploads) && DistinctIds(uploads)
    ensures History(uploads) == uploads[|uploads| - Min(|uploads|, RetentionLimit)..]
  {
    if uploads != [] {
      var n := |uploads|;
      var p := uploads[..n - 1];
      SliceOrdered(uploads, 0, n - 1);
      assert uploads[0..n - 1] == p;
      HistoryKeepsLastFive(p);
      var k := Min(n - 1, RetentionLimit);
      RetainWindow(uploads, k);
      assert History(p) + [uploads[n - 1]] == uploads[n - 1 - k..n - 1] + [uploads[n - 1]];
    }
  }

  /** The last five of a window ending at the last upload are the last five uploads. */
  lemma WindowTail(uploads: seq<Dataset>, k: nat)
    requires uploads != [] && k == Min(|uploads| - 1, RetentionLimit)
    ensures var w := uploads[|uploads| - 1 - k..];
            w[|w| - Min(|w|, RetentionLimit)..] == uploads[|uploads| - Min(|uploads|, RetentionLimit)..]
  {
  }

  /** Saving the next upload into a table holding the previous (up to five)
      uploads leaves the last five. */
  lemma RetainWindow(uploads: seq<Dataset>, k: nat)
    requires Chronological(uploads) && DistinctIds(uploads) && uploads != []
    requires k == Min(|uploads| - 1, RetentionLimit)
    ensures Retain(uploads[|uploads| - 1 - k..|uploads| - 1] + [uploads[|uploads| - 1]])
            == uploads[|uploads| - Min(|uploads|, RetentionLimit)..]
  {
    var n := |uploads|;
    var w := uploads[n - 1 - k..];
    assert uploads[n - 1 - k..n - 1] + [uploads[n - 1]] == w;
    SliceOrdered(uploads, n - 1 - k, n);
    assert uploads[n - 1 - k..n] == w;
    WindowTail(uploads, k);
    RetainChronological(w);
  }

  /** Six uploads: five remain, the first one is gone, the last one is newest. */
  lemma SixUploadsKeepFive(uploads: seq<Dataset>)
    requires |uploads| == 6 && Chronological(uploads) && DistinctIds(uploads)
    ensures History(uploads) == uploads[1..]
    ensures |History(uploads)| == 5 && uploads[0] !in History(uploads)
    ensures ByRecency(History(uploads))[0] == uploads[5]
  {
    HistoryKeepsLastFive(uploads);
    SliceOrdered(uploads, 1, 6);
    assert uploads[1..6] == uploads[1..];
    ByRecencyChronological(uploads[1..]);
    var v := uploads[1..];
    forall j | 0 <= j < |v| ensures v[j] != uploads[0] {
      assert v[j].uploadedAt == uploads[j + 1].uploadedAt;
    }
  }

  // ------------------------------------------------------------------
  // The dataset table.
  // ------------------------------------------------------------------

  class DatasetStore {
    /** The table's rows, in insertion order. */
    var rows: seq<Dataset>

    ghost predicate Valid()
      reads this
    {
      DistinctIds(rows)
    }

    constructor ()
      ensures Valid() && rows == []
    {
      rows := [];
    }

    /** `Dataset.save` on a new row: insert, then delete every row whose id is
        not among the five most recent. */
    method Save(d: Dataset)
      requires Valid()
      requires d.id !in IdSet(rows)
      modifies this
      ensures Valid() && |rows| <= RetentionLimit
      ensures rows == Retain(old(rows) + [d])
      ensures (forall e :: e in old(rows) ==> e.uploadedAt <= d.uploadedAt) ==> d in rows
      ensures forall e :: e in rows ==> e == d || e in old(rows)
    {
      IdSetSnoc(rows, d);
      assert DistinctIds(rows + [d]) by {
        forall i | 0 <= i < |rows| ensures rows[i].id != d.id {
          assert rows[i].id in IdSet(rows);
        }
      }
      rows := rows + [d];
      var preserved := PreservedIds(rows);
      rows := KeepIds(rows, preserved);
      RetainSize(old(rows) + [d]);
      if forall e :: e in old(rows) ==> e.uploadedAt <= d.uploadedAt {
        NewestSurvivesSave(old(rows), d);
      }
    }

    /** The rows as listed: `Meta.ordering`, most recent first. */
    function Listing(): (r: seq<Dataset>)
      reads this
      ensures MostRecentFirst(r) && multiset(r) == multiset(rows)
    {
      ByRecency(rows)
    }
  }
}
