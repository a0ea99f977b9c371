/**
 * The permit pipeline of `listExportAccess`: every record's date ranges
 * that end after `now`, crossed with its allowed emails, then sorted with
 * two stable sorts, first by `to` and then by `from`.
 */
module PermitExport {
  import opened Options
  import opened AccessRecords

  /** One exported (date range, email) pair. */
  datatype Permit = Permit(dateRange: DateRange, email: string)

  /** `dateRanges.filter { it.to > now }`. */
  function LiveRanges(ranges: seq<DateRange>, now: int): (r: seq<DateRange>)
    ensures forall d :: d in r <==> d in ranges && d.to > now
    ensures forall d :: multiset(r)[d] == if d.to > now then multiset(ranges)[d] else 0
    ensures |r| <= |ranges|
  {
    if ranges == [] then []
    else
      assert ranges == [ranges[0]] + ranges[1..];
      if ranges[0].to > now then [ranges[0]] + LiveRanges(ranges[1..], now)
      else LiveRanges(ranges[1..], now)
  }

  /** `allowedEmails.map { Permit(range, it) }`. */
  function EmailPermits(range: DateRange, emails: seq<string>): seq<Permit>
  {
    seq(|emails|, i requires 0 <= i < |emails| => Permit(range, emails[i]))
  }

  /** `ranges.flatMap { range -> emails.map { ... } }`. */
  function RangePermits(ranges: seq<DateRange>, emails: seq<string>): seq<Permit>
  {
    if ranges == [] then [] else EmailPermits(ranges[0], emails) + RangePermits(ranges[1..], emails)
  }

  /** The flattened permits of all records, before sorting. */
  function Flatten(accesses: seq<Access>, now: int): seq<Permit>
  {
    if accesses == [] then []
    else RangePermits(LiveRanges(accesses[0].dateRanges, now), accesses[0].allowedEmails)
         + Flatten(accesses[1..], now)
  }

  // ---------------------------------------------------------------------------
  // Stable sorting

  datatype SortKey = ByFrom | ByTo

  function Key(p: Permit, k: SortKey): int
  {
    match k
    case ByFrom => p.dateRange.from
    case ByTo => p.dateRange.to
  }

  predicate SortedBy(s: seq<Permit>, k: SortKey)
  {
    forall i, j :: 0 <= i < j < |s| ==> Key(s[i], k) <= Key(s[j], k)
  }

  /** Puts `x` before the first element whose key is not smaller, so `x` stays ahead of elements with an equal key. */
  function Insert(x: Permit, s: seq<Permit>, k: SortKey): (r: seq<Permit>)
    ensures multiset(r) == multiset(s) + multiset{x}
    ensures forall y :: y in r <==> y in s || y == x
  {
    if s == [] || Key(x, k) <= Key(s[0], k) then [x] + s
    else
      assert s == [s[0]] + s[1..];
      [s[0]] + Insert(x, s[1..], k)
  }

  /** Inserting into a list whose keys are all at least `b` an element whose key is too keeps that bound. */
  lemma {:induction false} InsertLowerBound(x: Permit, s: seq<Permit>, k: SortKey, b: int)
    requires b <= Key(x, k)
    requires forall i :: 0 <= i < |s| ==> b <= Key(s[i], k)
    ensures forall i :: 0 <= i < |Insert(x, s, k)| ==> b <= Key(Insert(x, s, k)[i], k)
  {
    if s != [] && Key(x, k) > Key(s[0], k) {
      InsertLowerBound(x, s[1..], k, b);
      var t := Insert(x, s[1..], k);
      assert forall i :: 0 < i < |t| + 1 ==> ([s[0]] + t)[i] == t[i - 1];
    }
  }

  lemma {:induction false} InsertSorted(x: Permit, s: seq<Permit>, k: SortKey)
    requires SortedBy(s, k)
    ensures SortedBy(Insert(x, s, k), k)
  {
    if s != [] && Key(x, k) > Key(s[0], k) {
      InsertSorted(x, s[1..], k);
      var t := Insert(x, s[1..], k);
      InsertLowerBound(x, s[1..], k, Key(s[0], k));
      var r := [s[0]] + t;
      forall i, j | 0 <= i < j < |r| ensures Key(r[i], k) <= Key(r[j], k) {
        assert r[j] == t[j - 1];
        if i > 0 {
          assert r[i] == t[i - 1];
        }
      }
    }
  }

  /** The elements of `s` whose key is `v`, in their order in `s`. */
  function WithKey(s: seq<Permit>, k: SortKey, v: int): seq<Permit>
  {
    if s == [] then [] else (if Key(s[0], k) == v then [s[0]] else []) + WithKey(s[1..], k, v)
  }

  lemma WithKeyCons(x: Permit, s: seq<Permit>, k: SortKey, v: int)
    ensures WithKey([x] + s, k, v) == (if Key(x, k) == v then [x] else []) + WithKey(s, k, v)
  {
    assert ([x] + s)[1..] == s;
  }

  /** Inserting into a sorted list puts `x` ahead of every element with its key and keeps their order. */
  lemma {:induction false} InsertWithKey(x: Permit, s: seq<Permit>, k: SortKey, v: int)
    requires SortedBy(s, k)
    ensures WithKey(Insert(x, s, k), k, v) == (if Key(x, k) == v then [x] else []) + WithKey(s, k, v)
  {
    if s == [] || Key(x, k) <= Key(s[0], k) {
      InsertAheadWithKey(x, s, k, v);
    } else {
      assert SortedBy(s[1..], k);
      InsertWithKey(x, s[1..], k, v);
      InsertPastWithKey(x, s, k, v);
    }
  }

  lemma InsertAheadWithKey(x: Permit, s: seq<Permit>, k: SortKey, v: int)
    requires s == [] || Key(x, k) <= Key(s[0], k)
    ensures WithKey(Insert(x, s, k), k, v) == (if Key(x, k) == v then [x] else []) + WithKey(s, k, v)
  {
    assert Insert(x, s, k) == [x] + s;
    WithKeyCons(x, s, k, v);
  }

  lemma InsertPastWithKey(x: Permit, s: seq<Permit>, k: SortKey, v: int)
    requires s != [] && Key(x, k) > Key(s[0], k)
    requires WithKey(Insert(x, s[1..], k), k, v) == (if Key(x, k) == v then [x] else []) + WithKey(s[1..], k, v)
    ensures WithKey(Insert(x, s, k), k, v) == (if Key(x, k) == v then [x] else []) + WithKey(s, k, v)
  {
    var hs: seq<Permit> := if Key(s[0], k) == v then [s[0]] else [];
    InsertPastHead(x, s, k, v);
    SwapEmpty(hs, if Key(x, k) == v then [x] else [], WithKey(s[1..], k, v));
  }

  lemma InsertPastHead(x: Permit, s: seq<Permit>, k: SortKey, v: int)
    requires s != [] && Key(x, k) > Key(s[0], k)
    ensures WithKey(Insert(x, s, k), k, v)
      == (if Key(s[0], k) == v then [s[0]] else []) + WithKey(Insert(x, s[1..], k), k, v)
  {
    WithKeyCons(s[0], Insert(x, s[1..], k), k, v);
  }

  lemma SwapEmpty(a: seq<Permit>, b: seq<Permit>, w: seq<Permit>)
    requires a == [] || b == []
    ensures a + (b + w) == b + (a + w)
  {
    if a == [] {
      assert a + (b + w) == b + w;
    } else {
      assert b + (a + w) == a + w;
    }
  }

  /** Kotlin's stable `sortedBy`, as an insertion sort: elements with equal keys keep their relative order. */
  function SortBy(s: seq<Permit>, k: SortKey): (r: seq<Permit>)
    ensures multiset(r) == multiset(s)
    ensures SortedBy(r, k)
    ensures forall v :: WithKey(r, k, v) == WithKey(s, k, v)
  {
    if s == [] then []
    else
      assert s == [s[0]] + s[1..];
      var t := SortBy(s[1..], k);
      InsertSorted(s[0], t, k);
      forall v ensures WithKey(Insert(s[0], t, k), k, v) == WithKey(s, k, v) {
        InsertWithKey(s[0], t, k, v);
      }
      Insert(s[0], t, k)
  }

  /** `p` comes no later than `q` when ordering by `from`, then `to`. */
  predicate LexLe(p: Permit, q: Permit)
  {
    p.dateRange.from < q.dateRange.from
    || (p.dateRange.from == q.dateRange.from && p.dateRange.to <= q.dateRange.to)
  }

  /** Ordered by `from`, and by `to` among equal `from`. */
  predicate LexSorted(s: seq<Permit>)
  {
    forall i, j :: 0 <= i < j < |s| ==> LexLe(s[i], s[j])
  }

  /** `.sortedBy { to }.sortedBy { from }`: the exported permits of the selected records. */
  function ExportPermits(accesses: seq<Access>, now: int): (r: seq<Permit>)
    ensures multiset(r) == multiset(Flatten(accesses, now))
    ensures SortedBy(r, ByFrom)
  {
    SortBy(SortBy(Flatten(accesses, now), ByTo), ByFrom)
  }

  // ---------------------------------------------------------------------------
  // What the pipeline produces

  lemma {:induction false} RangePermitsLength(ranges: seq<DateRange>, emails: seq<string>)
    ensures |RangePermits(ranges, emails)| == |ranges| * |emails|
  {
    if ranges != [] {
      RangePermitsLength(ranges[1..], emails);
      assert |ranges| * |emails| == |emails| + (|ranges| - 1) * |emails|;
    }
  }

  /** Each pair of a range and an email of the lists, and only those, is a permit. */
  lemma {:induction false} RangePermitsMembers(ranges: seq<DateRange>, emails: seq<string>)
    ensures forall p :: p in RangePermits(ranges, emails) <==> p.dateRange in ranges && p.email in emails
  {
    if ranges != [] {
      RangePermitsMembers(ranges[1..], emails);
      var head := EmailPermits(ranges[0], emails);
      forall p ensures p in head <==> p.dateRange == ranges[0] && p.email in emails {
        if p.dateRange == ranges[0] && p.email in emails {
          var i :| 0 <= i < |emails| && emails[i] == p.email;
          assert head[i] == p;
        }
      }
      assert forall d :: d in ranges <==> d == ranges[0] || d in ranges[1..] by {
        assert ranges == [ranges[0]] + ranges[1..];
      }
    }
  }

  /** The number of permits a record list yields: live ranges times emails, summed over the records. */
  function PermitCount(accesses: seq<Access>, now: int): nat
  {
    if accesses == [] then 0
    else RecordPermitCount(accesses[0], now) + PermitCount(accesses[1..], now)
  }

  /** One record's share: its live ranges times its emails. */
  function RecordPermitCount(a: Access, now: int): nat
  {
    Product(|LiveRanges(a.dateRanges, now)|, |a.allowedEmails|)
  }

  function Product(m: nat, n: nat): nat
  {
    m * n
  }

  /** The export has one permit per live range and allowed email of each record, duplicates included. */
  lemma {:induction false} ExportPermitCount(accesses: seq<Access>, now: int)
    ensures |ExportPermits(accesses, now)| == PermitCount(accesses, now)
    ensures multiset(ExportPermits(accesses, now)) == multiset(Flatten(accesses, now))
  {
    FlattenCount(accesses, now);
    var f := Flatten(accesses, now);
    assert |multiset(ExportPermits(accesses, now))| == |multiset(f)|;
  }

  lemma {:induction false} FlattenCount(accesses: seq<Access>, now: int)
    ensures |Flatten(accesses, now)| == PermitCount(accesses, now)
  {
    if accesses != [] {
      RangePermitsLength(LiveRanges(accesses[0].dateRanges, now), accesses[0].allowedEmails);
      FlattenCount(accesses[1..], now);
    }
  }

  /** A permit is exported exactly when some record has its range, ending after `now`, and its email. */
  lemma {:induction false} FlattenMembers(accesses: seq<Access>, now: int, p: Permit)
    ensures p in Flatten(accesses, now) <==>
      exists a :: a in accesses && p.dateRange in a.dateRanges && p.email in a.allowedEmails && p.dateRange.to > now
  {
    if accesses != [] {
      var a0 := accesses[0];
      RangePermitsMembers(LiveRanges(a0.dateRanges, now), a0.allowedEmails);
      FlattenMembers(accesses[1..], now, p);
      assert accesses == [a0] + accesses[1..];
    }
  }

  lemma ExportMembers(accesses: seq<Access>, now: int, p: Permit)
    ensures p in ExportPermits(accesses, now) <==>
      exists a :: a in accesses && p.dateRange in a.dateRanges && p.email in a.allowedEmails && p.dateRange.to > now
  {
    ExportPermitCount(accesses, now);
    assert p in ExportPermits(accesses, now) <==> p in multiset(Flatten(accesses, now));
    FlattenMembers(accesses, now, p);
  }

  /** No permit comes from a range that has ended. */
  lemma ExportedPermitsLive(accesses: seq<Access>, now: int)
    ensures forall p :: p in ExportPermits(accesses, now) ==> p.dateRange.to > now
  {
    forall p | p in ExportPermits(accesses, now) ensures p.dateRange.to > now {
      ExportMembers(accesses, now, p);
    }
  }

  /** Inserting by `from` an element whose `to` is not larger than any other keeps the lexicographic order. */
  lemma {:induction false} InsertByFromLex(x: Permit, s: seq<Permit>)
    requires LexSorted(s)
    requires forall y :: y in s ==> x.dateRange.to <= y.dateRange.to
    ensures LexSorted(Insert(x, s, ByFrom))
  {
    if s != [] && Key(x, ByFrom) > Key(s[0], ByFrom) {
      InsertByFromLex(x, s[1..]);
      var t := Insert(x, s[1..], ByFrom);
      forall y | y in t ensures LexLe(s[0], y) {
        if y != x {
          var j :| 0 <= j < |s[1..]| && s[1..][j] == y;
          assert s[j + 1] == y;
        }
      }
      var r := [s[0]] + t;
      forall i, j | 0 <= i < j < |r| ensures LexLe(r[i], r[j]) {
        if i == 0 {
          assert r[j] == t[j - 1] && r[j] in t;
        } else {
          assert r[i] == t[i - 1] && r[j] == t[j - 1];
        }
      }
    }
  }

  /** A stable sort by `from` of a list already sorted by `to` orders it by `from`, then `to`. */
  lemma {:induction false} SortByFromLex(t: seq<Permit>)
    requires SortedBy(t, ByTo)
    ensures LexSorted(SortBy(t, ByFrom))
  {
    if t != [] {
      assert SortedBy(t[1..], ByTo);
      SortByFromLex(t[1..]);
      var u := SortBy(t[1..], ByFrom);
      forall y | y in u ensures t[0].dateRange.to <= y.dateRange.to {
        assert y in multiset(t[1..]);
        var j :| 0 <= j < |t[1..]| && t[1..][j] == y;
        assert t[j + 1] == y;
        assert Key(t[0], ByTo) <= Key(t[j + 1], ByTo);
      }
      InsertByFromLex(t[0], u);
    }
  }

  /** The export is ordered by `from` ascending, and by `to` ascending among equal `from`. */
  lemma ExportOrdered(accesses: seq<Access>, now: int)
    ensures LexSorted(ExportPermits(accesses, now))
  {
    SortByFromLex(SortBy(Flatten(accesses, now), ByTo));
  }

  lemma {:induction false} NoLiveRanges(ranges: seq<DateRange>, now: int)
    requires forall d :: d in ranges ==> d.to <= now
    ensures LiveRanges(ranges, now) == []
  {
    if ranges != [] {
      NoLiveRanges(ranges[1..], now);
    }
  }

  /**
   * The query's "some range ends after now" condition changes nothing: a
   * record without a live range contributes no permit.
   */
  lemma {:induction false} LiveRangeQueryRedundant(accesses: seq<Access>, now: int)
    ensures Flatten(Filter(accesses, a => HasLiveRange(a, now)), now) == Flatten(accesses, now)
  {
    if accesses != [] {
      var a0 := accesses[0];
      var rest := Filter(accesses[1..], a => HasLiveRange(a, now));
      LiveRangeQueryRedundant(accesses[1..], now);
      FilterStep(accesses, a => HasLiveRange(a, now));
      if HasLiveRange(a0, now) {
        assert ([a0] + rest)[1..] == rest;
      } else {
        NoLiveRanges(a0.dateRanges, now);
      }
    }
  }

  lemma FilterStep(docs: seq<Access>, keep: Access -> bool)
    requires docs != []
    ensures Filter(docs, keep) == if keep(docs[0]) then [docs[0]] + Filter(docs[1..], keep) else Filter(docs[1..], keep)
  {
  }

  /** The steps of the pipeline on two ranges and one record, for the examples below. */
  lemma LiveRangesPair(d1: DateRange, d2: DateRange, now: int)
    ensures LiveRanges([d1, d2], now)
            == (if d1.to > now then [d1] else []) + (if d2.to > now then [d2] else [])
  {
    assert [d1, d2][1..] == [d2];
    assert [d2][1..] == [];
  }

  lemma RangePermitsPair(d1: DateRange, d2: DateRange, emails: seq<string>)
    ensures RangePermits([d1], emails) == EmailPermits(d1, emails)
    ensures RangePermits([d1, d2], emails) == EmailPermits(d1, emails) + EmailPermits(d2, emails)
  {
    assert [d1][1..] == [];
    assert [d1, d2][1..] == [d2];
    assert [d2][1..] == [];
  }

  lemma FlattenOne(a: Access, now: int)
    ensures Flatten([a], now) == RangePermits(LiveRanges(a.dateRanges, now), a.allowedEmails)
  {
    assert [a][1..] == [];
  }

  lemma SortOne(q: Permit, k: SortKey)
    ensures SortBy([q], k) == [q]
  {
    assert [q][1..] == [];
  }

  lemma InsertBeforeOne(p: Permit, q: Permit, k: SortKey)
    ensures Insert(p, [q], k) == if Key(p, k) <= Key(q, k) then [p, q] else [q, p]
  {
    assert [q][1..] == [];
  }

  lemma SortPair(p: Permit, q: Permit, k: SortKey)
    ensures SortBy([p, q], k) == if Key(p, k) <= Key(q, k) then [p, q] else [q, p]
  {
    assert [p, q][1..] == [q];
    SortOne(q, k);
    InsertBeforeOne(p, q, k);
  }

  /** Ranges {1,5} and {10,20} with emails a and b at time 8: only the two permits of {10,20}. */
  lemma ExportExample()
    ensures var a := Access("x", "loc", "u", 0, ["a", "b"], [DateRange(1, 5), DateRange(10, 20)], "", "");
      ExportPermits([a], 8) == [Permit(DateRange(10, 20), "a"), Permit(DateRange(10, 20), "b")]
  {
    var a := Access("x", "loc", "u", 0, ["a", "b"], [DateRange(1, 5), DateRange(10, 20)], "", "");
    var p := Permit(DateRange(10, 20), "a");
    var q := Permit(DateRange(10, 20), "b");
    LiveRangesPair(DateRange(1, 5), DateRange(10, 20), 8);
    RangePermitsPair(DateRange(10, 20), DateRange(10, 20), ["a", "b"]);
    assert EmailPermits(DateRange(10, 20), ["a", "b"]) == [p, q];
    FlattenOne(a, 8);
    SortPair(p, q, ByTo);
    SortPair(p, q, ByFrom);
  }

  /** A range starting earlier comes first even when it ends later: {2,30} before {5,9}. */
  lemma ExportOrderExample()
    ensures var a := Access("x", "loc", "u", 0, ["e"], [DateRange(5, 9), DateRange(2, 30)], "", "");
      ExportPermits([a], 0) == [Permit(DateRange(2, 30), "e"), Permit(DateRange(5, 9), "e")]
  {
    var a := Access("x", "loc", "u", 0, ["e"], [DateRange(5, 9), DateRange(2, 30)], "", "");
    var p := Permit(DateRange(5, 9), "e");
    var q := Permit(DateRange(2, 30), "e");
    LiveRangesPair(DateRange(5, 9), DateRange(2, 30), 0);
    RangePermitsPair(DateRange(5, 9), DateRange(2, 30), ["e"]);
    assert EmailPermits(DateRange(5, 9), ["e"]) == [p];
    assert EmailPermits(DateRange(2, 30), ["e"]) == [q];
    FlattenOne(a, 0);
    SortPair(p, q, ByTo);
    SortPair(p, q, ByFrom);
  }
}
