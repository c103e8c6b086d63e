/**
 * The visit log kept in the browser's storage and the statistics computed
 * from it: loading with an empty default, the retention sweep, recording
 * one visit, and the read-only snapshot (time windows, unique-visitor
 * estimate, top pages, top countries, recent visitors).
 *
 * The clock, the local midnight, the resolved country and city, and the
 * outcome of writing to storage are arguments; the stored blob is a field.
 */
module Analytics {
  import opened Options
  import opened Seqs

  datatype PageView = PageView(page: string, timestamp: int, country: Option<string>, city: Option<string>)

  datatype AnalyticsData = AnalyticsData(pageViews: seq<PageView>, lastCleanup: int)

  const MaxEntries: nat := 1000
  const Day: int := 24 * 60 * 60 * 1000
  const CleanupInterval: int := Day
  const RetentionSpan: int := 30 * Day
  const WeekSpan: int := 7 * Day
  /** The length of one session bucket of the unique-visitor estimate: 30 minutes. */
  const SessionSpan: int := 30 * 60 * 1000

  // ----------------------------------------------------------------- storage

  /** What `localStorage.getItem` finds: nothing, text `JSON.parse` rejects, or a stored log. */
  datatype Slot = Empty | Corrupt | Holds(data: AnalyticsData)

  /** `getStoredData`: the stored log, or an empty one swept at `now`. */
  function Load(slot: Slot, now: int): AnalyticsData
  {
    match slot
    case Holds(data) => data
    case _ => AnalyticsData([], now)
  }

  /** A missing or unreadable blob loads as an empty log. */
  lemma LoadDefault(slot: Slot, now: int)
    ensures !slot.Holds? ==> Load(slot, now).pageViews == [] && Load(slot, now).lastCleanup == now
    ensures slot.Holds? ==> Load(slot, now) == slot.data
  {
  }

  // ------------------------------------------------------------- sequences

  /** `s.slice(-n)` for `n > 0`: the last `n` elements, or all of them. */
  function TakeLast<T>(s: seq<T>, n: nat): (r: seq<T>)
    requires n > 0
    ensures |r| == if |s| <= n then |s| else n
    ensures r == s[|s| - |r|..]
  {
    if |s| <= n then s else s[|s| - n..]
  }

  /** `s.filter(keep)`. */
  function Filter(s: seq<PageView>, keep: PageView -> bool): (r: seq<PageView>)
    ensures |r| <= |s|
    ensures forall pv :: pv in r <==> pv in s && keep(pv)
  {
    if s == [] then []
    else
      var last := s[|s| - 1];
      Filter(s[..|s| - 1], keep) + (if keep(last) then [last] else [])
  }

  /** Filtering keeps the order: it distributes over concatenation. */
  lemma {:induction false} FilterAppend(a: seq<PageView>, b: seq<PageView>, keep: PageView -> bool)
    ensures Filter(a + b, keep) == Filter(a, keep) + Filter(b, keep)
    decreases |b|
  {
    if b == [] {
      assert a + b == a;
    } else {
      assert (a + b)[..|a + b| - 1] == a + b[..|b| - 1];
      FilterAppend(a, b[..|b| - 1], keep);
    }
  }

  /** The log is in recording order: timestamps never decrease. */
  predicate Chronological(s: seq<PageView>)
  {
    forall i, j :: 0 <= i < j < |s| ==> s[i].timestamp <= s[j].timestamp
  }

  /** A filtered chronological log is chronological. */
  lemma {:induction false} FilterChronological(s: seq<PageView>, keep: PageView -> bool)
    requires Chronological(s)
    ensures Chronological(Filter(s, keep))
  {
    if s != [] {
      var init := s[..|s| - 1];
      FilterChronological(init, keep);
      var f := Filter(init, keep);
      forall i | 0 <= i < |f| ensures f[i].timestamp <= s[|s| - 1].timestamp {
        assert f[i] in init;
      }
    }
  }

  // ------------------------------------------------------------------- sweep

  /** The records newer than the cut-off, the sweep's `timestamp > now - 30 days`. */
  function Newer(s: seq<PageView>, cutoff: int): seq<PageView>
  {
    Filter(s, (pv: PageView) => pv.timestamp > cutoff)
  }

  /**
   * `cleanupOldData`: the log unchanged if less than a day has passed since
   * the last sweep; otherwise the records of the last 30 days, at most the
   * last 1000 of them, and the sweep time recorded.
   */
  function Sweep(d: AnalyticsData, now: int): AnalyticsData
  {
    if now - d.lastCleanup < CleanupInterval then d
    else AnalyticsData(TakeLast(Newer(d.pageViews, now - RetentionSpan), MaxEntries), now)
  }

  /**
   * The sweep runs at most once a day; when it runs, what it keeps is a
   * suffix, in order, of the records newer than 30 days, it keeps all of
   * them when there are at most 1000, and it keeps no more than 1000.
   */
  lemma SweepSpec(d: AnalyticsData, now: int)
    ensures now - d.lastCleanup < CleanupInterval ==> Sweep(d, now) == d
    ensures now - d.lastCleanup >= CleanupInterval ==>
      var kept := Newer(d.pageViews, now - RetentionSpan);
      var r := Sweep(d, now);
      && r.lastCleanup == now
      && |r.pageViews| <= MaxEntries
      && r.pageViews == kept[|kept| - |r.pageViews|..]
      && (|kept| <= MaxEntries ==> r.pageViews == kept)
      && (forall pv :: pv in r.pageViews ==> pv in d.pageViews && pv.timestamp > now - RetentionSpan)
      && (forall pv :: pv in d.pageViews && pv.timestamp > now - RetentionSpan ==> pv in kept)
  {
    if now - d.lastCleanup >= CleanupInterval {
      var kept := Newer(d.pageViews, now - RetentionSpan);
      var r := Sweep(d, now).pageViews;
      forall pv | pv in r ensures pv in d.pageViews && pv.timestamp > now - RetentionSpan {
        assert pv in kept;
      }
    }
  }

  /** A sweep keeps a chronological log chronological. */
  lemma SweepChronological(d: AnalyticsData, now: int)
    requires Chronological(d.pageViews)
    ensures Chronological(Sweep(d, now).pageViews)
  {
    FilterChronological(d.pageViews, (pv: PageView) => pv.timestamp > now - RetentionSpan);
  }

  // ------------------------------------------------------------------ record

  /** The log after `push` of one record and the `slice(-MAX_ENTRIES)` when it is too long. */
  function Appended(d: AnalyticsData, pv: PageView): AnalyticsData
  {
    d.(pageViews := TakeLast(d.pageViews + [pv], MaxEntries))
  }

  /**
   * After recording, the new record is the last one, the log has at most
   * 1000 records, it is a suffix of the old log followed by the record (so
   * any records dropped are the oldest), nothing is dropped when there was
   * room, and the sweep time is kept.
   */
  lemma AppendedSpec(d: AnalyticsData, pv: PageView)
    ensures var r := Appended(d, pv).pageViews;
      && |r| >= 1 && r[|r| - 1] == pv
      && |r| <= MaxEntries
      && r == (d.pageViews + [pv])[|d.pageViews| + 1 - |r|..]
      && (|d.pageViews| < MaxEntries ==> r == d.pageViews + [pv])
      && (|d.pageViews| >= MaxEntries ==> |r| == MaxEntries)
    ensures Appended(d, pv).lastCleanup == d.lastCleanup
  {
  }

  /** Recording a visit no earlier than every stored one keeps the log chronological. */
  lemma AppendedChronological(d: AnalyticsData, pv: PageView)
    requires Chronological(d.pageViews)
    requires forall q :: q in d.pageViews ==> q.timestamp <= pv.timestamp
    ensures Chronological(Appended(d, pv).pageViews)
  {
    var s := d.pageViews + [pv];
    assert Chronological(s) by {
      forall i, j | 0 <= i < j < |s| ensures s[i].timestamp <= s[j].timestamp {
        if j == |s| - 1 {
          assert s[i] in d.pageViews;
        }
      }
    }
  }

  class AnalyticsStore {
    var slot: Slot

    /** A browser with nothing stored yet. */
    constructor ()
      ensures slot == Empty
    {
      slot := Empty;
    }

    /**
     * `trackPageView`. The log is loaded (with `loadTime` for an empty
     * default) and swept at `sweepTime`; the visit is recorded at
     * `visitTime` with the resolved `country` and `city`; the log is cut
     * to its last 1000 records; and it is stored unless the write fails.
     */
    method TrackPageView(page: string, country: string, city: string,
                         loadTime: int, sweepTime: int, visitTime: int, saved: bool)
      modifies this
      ensures saved ==> slot == Holds(Appended(Sweep(Load(old(slot), loadTime), sweepTime),
                                               PageView(page, visitTime, Some(country), Some(city))))
      ensures saved ==> |slot.data.pageViews| <= MaxEntries
      ensures !saved ==> slot == old(slot)
    {
      var data := Sweep(Load(slot, loadTime), sweepTime);
      var views := data.pageViews + [PageView(page, visitTime, Some(country), Some(city))];
      if |views| > MaxEntries {
        views := views[|views| - MaxEntries..];
      }
      data := data.(pageViews := views);
      if saved {
        slot := Holds(data);
      }
    }
  }

  // --------------------------------------------------------------- windows

  /** The records at or after `start`: `filter(pv => pv.timestamp >= start)`. */
  function Since(s: seq<PageView>, start: int): seq<PageView>
  {
    Filter(s, (pv: PageView) => pv.timestamp >= start)
  }

  /** A later start never counts more records. */
  lemma {:induction false} SinceMonotone(s: seq<PageView>, later: int, earlier: int)
    requires earlier <= later
    ensures |Since(s, later)| <= |Since(s, earlier)|
  {
    if s != [] {
      SinceMonotone(s[..|s| - 1], later, earlier);
    }
  }

  // --------------------------------------------------------------- sessions

  /** `${value}` of an optional text: the text, or `undefined`. */
  function Rendered(value: Option<string>): string
  {
    match value
    case Some(s) => s
    case None => "undefined"
  }

  /** The character of a decimal digit. */
  function DecimalDigit(d: nat): (c: char)
    requires d < 10
    ensures '0' <= c <= '9'
  {
    ('0' as int + d) as char
  }

  /** `${n}` of a non-negative integer: its decimal digits, most significant first. */
  function NatDecimal(n: nat): (s: string)
    ensures |s| >= 1
    ensures forall i :: 0 <= i < |s| ==> '0' <= s[i] <= '9'
    ensures n >= 10 <==> |s| >= 2
  {
    if n < 10 then [DecimalDigit(n)] else NatDecimal(n / 10) + [DecimalDigit(n % 10)]
  }

  /** Different numbers are written differently. */
  lemma {:induction false} NatDecimalInjective(a: nat, b: nat)
    ensures NatDecimal(a) == NatDecimal(b) ==> a == b
    decreases a
  {
    if a >= 10 && b >= 10 {
      var sa, sb := NatDecimal(a / 10), NatDecimal(b / 10);
      if NatDecimal(a) == NatDecimal(b) {
        assert sa == NatDecimal(a)[..|sa|];
        assert |sa| == |sb| && sa == sb by {
          assert |NatDecimal(a)| == |sa| + 1 && |NatDecimal(b)| == |sb| + 1;
          assert sb == NatDecimal(b)[..|sb|];
        }
        NatDecimalInjective(a / 10, b / 10);
        assert DecimalDigit(a % 10) == NatDecimal(a)[|sa|] == DecimalDigit(b % 10);
      }
    }
  }

  /** `${x}` of an integer. */
  function IntDecimal(x: int): string
  {
    if x < 0 then "-" + NatDecimal(-x) else NatDecimal(x)
  }

  /** Different integers are written differently: a minus sign never starts a digit string. */
  lemma IntDecimalInjective(x: int, y: int)
    ensures IntDecimal(x) == IntDecimal(y) ==> x == y
  {
    if x < 0 && y < 0 {
      NatDecimalInjective(-x, -y);
      if IntDecimal(x) == IntDecimal(y) {
        assert NatDecimal(-x) == IntDecimal(x)[1..];
      }
    } else if x >= 0 && y >= 0 {
      NatDecimalInjective(x, y);
    } else {
      assert IntDecimal(x)[0] != IntDecimal(y)[0];
    }
  }

  /**
   * The session id of a record: country, city and 30-minute bucket joined
   * with `-`. Dafny's `/` on a positive divisor rounds down, as `Math.floor`
   * of the quotient does.
   */
  function SessionId(pv: PageView): string
  {
    Rendered(pv.country) + "-" + Rendered(pv.city) + "-" + IntDecimal(pv.timestamp / SessionSpan)
  }

  /** The set of session ids of the records. */
  function Sessions(views: seq<PageView>): set<string>
  {
    if views == [] then {} else Sessions(views[..|views| - 1]) + {SessionId(views[|views| - 1])}
  }

  /** The estimate never exceeds the number of records, and it is 0 exactly for no records. */
  lemma {:induction false} SessionsBound(views: seq<PageView>)
    ensures |Sessions(views)| <= |views|
    ensures |Sessions(views)| == 0 <==> views == []
  {
    if views != [] {
      SessionsBound(views[..|views| - 1]);
      assert SessionId(views[|views| - 1]) in Sessions(views);
    }
  }

  /** Records that share country, city and bucket count once. */
  lemma SameSessionCountsOnce(views: seq<PageView>, pv: PageView)
    requires exists q :: q in views && SessionId(q) == SessionId(pv)
    ensures Sessions(views + [pv]) == Sessions(views)
  {
    assert (views + [pv])[..|views|] == views;
    var q :| q in views && SessionId(q) == SessionId(pv);
    SessionMember(views, q);
  }

  /**
   * Two records from the same country and city share a session exactly
   * when they fall in the same 30-minute bucket; records in different
   * buckets count as two sessions.
   */
  lemma SessionBuckets(p: PageView, q: PageView)
    requires p.country == q.country && p.city == q.city
    ensures SessionId(p) == SessionId(q) <==> p.timestamp / SessionSpan == q.timestamp / SessionSpan
    ensures p.timestamp / SessionSpan != q.timestamp / SessionSpan ==> |Sessions([p, q])| == 2
  {
    var prefix := Rendered(p.country) + "-" + Rendered(p.city) + "-";
    var a, b := IntDecimal(p.timestamp / SessionSpan), IntDecimal(q.timestamp / SessionSpan);
    assert SessionId(p) == prefix + a && SessionId(q) == prefix + b;
    if SessionId(p) == SessionId(q) {
      assert a == (prefix + a)[|prefix|..] == (prefix + b)[|prefix|..] == b;
    }
    IntDecimalInjective(p.timestamp / SessionSpan, q.timestamp / SessionSpan);
    assert [p, q][..1] == [p] && [p][..0] == [];
    assert Sessions([p]) == {SessionId(p)};
    assert Sessions([p, q]) == {SessionId(p)} + {SessionId(q)};
  }

  lemma {:induction false} SessionMember(views: seq<PageView>, q: PageView)
    requires q in views
    ensures SessionId(q) in Sessions(views)
  {
    var init := views[..|views| - 1];
    if q != views[|views| - 1] {
      assert q in init;
      SessionMember(init, q);
    }
  }

  /** `uniqueVisitors`: the `forEach` that fills a set of session ids, then its size. */
  method UniqueVisitors(views: seq<PageView>) returns (n: nat)
    ensures n == |Sessions(views)|
    ensures n <= |views|
    ensures n == 0 <==> views == []
  {
    var sessions: set<string> := {};
    var i := 0;
    while i < |views|
      invariant 0 <= i <= |views|
      invariant sessions == Sessions(views[..i])
    {
      assert views[..i + 1][..i] == views[..i];
      sessions := sessions + {SessionId(views[i])};
      i := i + 1;
    }
    assert views[..i] == views;
    SessionsBound(views);
    n := |sessions|;
  }

  datatype WindowStats = WindowStats(visits: nat, pageViews: nat, uniqueVisitors: nat)

  /** One window's figures: `visits` and `pageViews` are both the record count. */
  function WindowOf(views: seq<PageView>): WindowStats
  {
    WindowStats(|views|, |views|, |Sessions(views)|)
  }

  // ---------------------------------------------------------------- tallies

  /** One `[key, count]` of `Object.entries` of a counting record. */
  datatype Entry = Entry(key: string, count: nat)

  /** The position of the entry for `k`, if there is one. */
  function IndexOf(entries: seq<Entry>, k: string): (r: Option<nat>)
    ensures r.Some? ==> r.value < |entries| && entries[r.value].key == k
    ensures r.None? ==> forall i :: 0 <= i < |entries| ==> entries[i].key != k
  {
    if entries == [] then None
    else if entries[0].key == k then Some(0)
    else match IndexOf(entries[1..], k)
      case None => None
      case Some(i) => Some(i + 1)
  }

  /**
   * `acc[k] = (acc[k] || 0) + 1`: the entry for `k` goes up by one, or a
   * new entry with count 1 is added last, keeping first-insertion order.
   */
  function Bump(entries: seq<Entry>, k: string): seq<Entry>
  {
    match IndexOf(entries, k)
    case Some(i) => entries[i := Entry(k, entries[i].count + 1)]
    case None => entries + [Entry(k, 1)]
  }

  /** The counting record after counting every key, in first-seen order. */
  function TallyOf(keys: seq<string>): seq<Entry>
  {
    if keys == [] then [] else Bump(TallyOf(keys[..|keys| - 1]), keys[|keys| - 1])
  }

  predicate DistinctKeys(entries: seq<Entry>)
  {
    forall i, j :: 0 <= i < j < |entries| ==> entries[i].key != entries[j].key
  }

  /** The sum of the counts, `Object.values(acc).reduce((a, b) => a + b, 0)`. */
  function TotalCount(entries: seq<Entry>): nat
  {
    if entries == [] then 0 else TotalCount(entries[..|entries| - 1]) + entries[|entries| - 1].count
  }

  lemma {:induction false} TotalCountUpdate(entries: seq<Entry>, i: nat, e: Entry)
    requires i < |entries|
    ensures TotalCount(entries[i := e]) == TotalCount(entries) - entries[i].count + e.count
  {
    var n := |entries| - 1;
    if i < n {
      assert entries[i := e][..n] == entries[..n][i := e];
      TotalCountUpdate(entries[..n], i, e);
    }
  }

  /** Some entry has key `x`. */
  predicate KeyIn(t: seq<Entry>, x: string)
  {
    exists j :: 0 <= j < |t| && t[j].key == x
  }

  /**
   * `t` is the counting record of `keys`: one entry per distinct key, each
   * entry's count the number of times its key occurs (so at least 1), and
   * the counts adding up to the number of keys.
   */
  ghost predicate Counts(t: seq<Entry>, keys: seq<string>)
  {
    && DistinctKeys(t)
    && (forall j :: 0 <= j < |t| ==> t[j].count == Occurrences(keys, t[j].key) >= 1)
    && (forall x :: x in keys ==> KeyIn(t, x))
    && TotalCount(t) == |keys|
  }

  lemma OccurrencesSnoc(keys: seq<string>, k: string, x: string)
    ensures Occurrences(keys + [k], x) == Occurrences(keys, x) + (if x == k then 1 else 0)
  {
    assert (keys + [k])[..|keys|] == keys;
  }

  /** Counting a key already seen raises its entry by one. */
  lemma BumpSeen(t: seq<Entry>, keys: seq<string>, k: string, i: nat)
    requires Counts(t, keys) && i < |t| && t[i].key == k
    ensures Counts(t[i := Entry(k, t[i].count + 1)], keys + [k])
  {
    var r := t[i := Entry(k, t[i].count + 1)];
    assert DistinctKeys(r) by {
      forall a, b | 0 <= a < b < |r| ensures r[a].key != r[b].key {
        assert r[a].key == t[a].key && r[b].key == t[b].key;
      }
    }
    TotalCountUpdate(t, i, Entry(k, t[i].count + 1));
    BumpSeenCounts(t, keys, k, i);
    BumpSeenKeys(t, keys, k, i);
  }

  lemma BumpSeenCounts(t: seq<Entry>, keys: seq<string>, k: string, i: nat)
    requires DistinctKeys(t) && i < |t| && t[i].key == k
    requires forall j :: 0 <= j < |t| ==> t[j].count == Occurrences(keys, t[j].key) >= 1
    ensures var r := t[i := Entry(k, t[i].count + 1)];
      forall j :: 0 <= j < |r| ==> r[j].count == Occurrences(keys + [k], r[j].key) >= 1
  {
    var r := t[i := Entry(k, t[i].count + 1)];
    forall j | 0 <= j < |r| ensures r[j].count == Occurrences(keys + [k], r[j].key) >= 1 {
      OccurrencesSnoc(keys, k, r[j].key);
      if j != i {
        assert r[j] == t[j] && t[j].key != k;
      }
    }
  }

  lemma BumpSeenKeys(t: seq<Entry>, keys: seq<string>, k: string, i: nat)
    requires i < |t| && t[i].key == k
    requires forall x :: x in keys ==> KeyIn(t, x)
    ensures forall x :: x in keys + [k] ==> KeyIn(t[i := Entry(k, t[i].count + 1)], x)
  {
    var r := t[i := Entry(k, t[i].count + 1)];
    forall x | x in keys + [k] ensures KeyIn(r, x) {
      if x == k {
        assert r[i].key == x;
      } else {
        assert x in keys;
        var j :| 0 <= j < |t| && t[j].key == x;
        assert r[j].key == x;
      }
    }
  }

  /** Counting a new key adds an entry with count 1 at the end. */
  lemma BumpNew(t: seq<Entry>, keys: seq<string>, k: string)
    requires Counts(t, keys) && !KeyIn(t, k)
    ensures Counts(t + [Entry(k, 1)], keys + [k])
  {
    var r := t + [Entry(k, 1)];
    assert TotalCount(r) == TotalCount(t) + 1 by {
      assert r[..|r| - 1] == t;
    }
    assert DistinctKeys(r) by {
      forall a, b | 0 <= a < b < |r| ensures r[a].key != r[b].key {
        assert r[a] == t[a];
        if b < |t| {
          assert r[b] == t[b];
        }
      }
    }
    BumpNewCounts(t, keys, k);
    BumpNewKeys(t, keys, k);
  }

  lemma BumpNewCounts(t: seq<Entry>, keys: seq<string>, k: string)
    requires k !in keys
    requires forall j :: 0 <= j < |t| ==> t[j].count == Occurrences(keys, t[j].key) >= 1
    ensures var r := t + [Entry(k, 1)];
      forall j :: 0 <= j < |r| ==> r[j].count == Occurrences(keys + [k], r[j].key) >= 1
  {
    var r := t + [Entry(k, 1)];
    forall j | 0 <= j < |r| ensures r[j].count == Occurrences(keys + [k], r[j].key) >= 1 {
      OccurrencesSnoc(keys, k, r[j].key);
      if j < |t| {
        assert r[j] == t[j];
        assert t[j].key in keys;
      }
    }
  }

  lemma BumpNewKeys(t: seq<Entry>, keys: seq<string>, k: string)
    requires forall x :: x in keys ==> KeyIn(t, x)
    ensures forall x :: x in keys + [k] ==> KeyIn(t + [Entry(k, 1)], x)
  {
    var r := t + [Entry(k, 1)];
    forall x | x in keys + [k] ensures KeyIn(r, x) {
      if x == k {
        assert r[|t|].key == x;
      } else {
        assert x in keys;
        var j :| 0 <= j < |t| && t[j].key == x;
        assert r[j].key == x;
      }
    }
  }

  /** The counting record of a sequence of keys, in first-seen order, is correct. */
  lemma {:induction false} TallySpec(keys: seq<string>)
    ensures DistinctKeys(TallyOf(keys))
    ensures forall i :: 0 <= i < |TallyOf(keys)| ==>
      TallyOf(keys)[i].count == Occurrences(keys, TallyOf(keys)[i].key) >= 1
    ensures forall k :: k in keys <==> KeyIn(TallyOf(keys), k)
    ensures TotalCount(TallyOf(keys)) == |keys|
  {
    TallyCounts(keys);
    var t := TallyOf(keys);
    forall k | KeyIn(t, k) ensures k in keys {
      var j :| 0 <= j < |t| && t[j].key == k;
    }
  }

  lemma {:induction false} TallyCounts(keys: seq<string>)
    ensures Counts(TallyOf(keys), keys)
  {
    if keys != [] {
      var init := keys[..|keys| - 1];
      var k := keys[|keys| - 1];
      TallyCounts(init);
      var t := TallyOf(init);
      assert keys == init + [k];
      assert TallyOf(keys) == Bump(t, k);
      match IndexOf(t, k)
      case Some(i) =>
        assert Bump(t, k) == t[i := Entry(k, t[i].count + 1)];
        BumpSeen(t, init, k, i);
      case None =>
        assert Bump(t, k) == t + [Entry(k, 1)];
        BumpNew(t, init, k);
    }
  }

  /** The position of the first occurrence of `x` in `keys`. */
  function FirstIndex(keys: seq<string>, x: string): (i: nat)
    requires x in keys
    ensures i < |keys| && keys[i] == x
    ensures forall j :: 0 <= j < i ==> keys[j] != x
  {
    if keys[0] == x then 0 else 1 + FirstIndex(keys[1..], x)
  }

  /** Appending a key does not move the first occurrence of a key already there, and places a new key's first occurrence last. */
  lemma {:induction false} FirstIndexSnoc(keys: seq<string>, k: string, x: string)
    requires x in keys + [k]
    ensures x in keys ==> FirstIndex(keys + [k], x) == FirstIndex(keys, x)
    ensures x !in keys ==> FirstIndex(keys + [k], x) == |keys|
  {
    var i := FirstIndex(keys + [k], x);
    if x in keys {
      var f := FirstIndex(keys, x);
      assert (keys + [k])[f] == x;
      assert i <= f;
      assert keys[i] == x;
      assert f <= i;
    } else {
      assert forall j :: 0 <= j < |keys| ==> (keys + [k])[j] != x;
    }
  }

  /** Every entry's key occurs in `keys`, and the entries are in the order their keys first occur. */
  predicate InFirstSeenOrder(t: seq<Entry>, keys: seq<string>)
  {
    && (forall i :: 0 <= i < |t| ==> t[i].key in keys)
    && (forall i, j :: 0 <= i < j < |t| ==> FirstIndex(keys, t[i].key) < FirstIndex(keys, t[j].key))
  }

  /** The first occurrences of keys already seen do not move when a key is appended. */
  lemma FirstIndexKept(t: seq<Entry>, keys: seq<string>, k: string)
    requires forall i :: 0 <= i < |t| ==> t[i].key in keys
    ensures forall i :: 0 <= i < |t| ==> t[i].key in keys + [k] && FirstIndex(keys + [k], t[i].key) == FirstIndex(keys, t[i].key)
  {
    forall i | 0 <= i < |t|
      ensures t[i].key in keys + [k] && FirstIndex(keys + [k], t[i].key) == FirstIndex(keys, t[i].key)
    {
      var f := FirstIndex(keys, t[i].key);
      assert (keys + [k])[f] == t[i].key;
      FirstIndexSnoc(keys, k, t[i].key);
    }
  }

  /** Raising the count of a key already seen keeps first-seen order. */
  lemma FirstSeenBumpSeen(t: seq<Entry>, keys: seq<string>, k: string, p: nat, c: nat)
    requires InFirstSeenOrder(t, keys) && p < |t| && t[p].key == k
    ensures InFirstSeenOrder(t[p := Entry(k, c)], keys + [k])
  {
    FirstIndexKept(t, keys, k);
    var u := t[p := Entry(k, c)];
    assert forall i :: 0 <= i < |u| ==> u[i].key == t[i].key;
  }

  /** A key not seen before goes last, after every key already seen. */
  lemma FirstSeenBumpNew(t: seq<Entry>, keys: seq<string>, k: string)
    requires InFirstSeenOrder(t, keys) && k !in keys
    ensures InFirstSeenOrder(t + [Entry(k, 1)], keys + [k])
  {
    FirstIndexKept(t, keys, k);
    assert k in keys + [k];
    FirstIndexSnoc(keys, k, k);
    var u := t + [Entry(k, 1)];
    forall i | 0 <= i < |t| ensures FirstIndex(keys + [k], u[i].key) < FirstIndex(keys + [k], k) {
      assert u[i] == t[i];
    }
  }

  /** Counting one more key keeps first-seen order, provided a key with no entry has not been seen. */
  lemma FirstSeenBump(t: seq<Entry>, keys: seq<string>, k: string)
    requires InFirstSeenOrder(t, keys)
    requires IndexOf(t, k).None? ==> k !in keys
    ensures InFirstSeenOrder(Bump(t, k), keys + [k])
  {
    match IndexOf(t, k)
    case Some(p) =>
      FirstSeenBumpSeen(t, keys, k, p, t[p].count + 1);
    case None =>
      FirstSeenBumpNew(t, keys, k);
  }

  /**
   * The counting record lists its keys in first-seen order: an entry
   * comes before another exactly when its key first occurs earlier.
   */
  lemma {:induction false} TallyFirstSeen(keys: seq<string>)
    ensures InFirstSeenOrder(TallyOf(keys), keys)
  {
    if keys != [] {
      var init, k := keys[..|keys| - 1], keys[|keys| - 1];
      assert keys == init + [k];
      TallyFirstSeen(init);
      var t0 := TallyOf(init);
      assert IndexOf(t0, k).None? ==> k !in init by {
        TallySpec(init);
      }
      FirstSeenBump(t0, init, k);
    }
  }

  /** The page of every record. */
  function Pages(views: seq<PageView>): (pages: seq<string>)
    ensures |pages| == |views|
  {
    seq(|views|, i requires 0 <= i < |views| => views[i].page)
  }

  /** The truthiness of an optional text: present and not empty. */
  predicate Truthy(value: Option<string>)
  {
    value.Some? && value.value != ""
  }

  /** The country of every record whose country is truthy, in order. */
  function Countries(views: seq<PageView>): (countries: seq<string>)
    ensures |countries| <= |views|
    ensures forall c :: c in countries ==> c != ""
  {
    if views == [] then []
    else
      var last := views[|views| - 1];
      Countries(views[..|views| - 1]) + (if Truthy(last.country) then [last.country.value] else [])
  }

  /** A one-element sequence holds its element once and nothing else. */
  lemma OccurrencesSingle(x: string, c: string)
    ensures Occurrences([x], c) == if x == c then 1 else 0
  {
    assert [x][..0] == [];
  }

  /** Each page occurs in `Pages` once per record for that page. */
  lemma {:induction false} PagesCount(views: seq<PageView>, p: string)
    ensures Occurrences(Pages(views), p) == |Filter(views, (pv: PageView) => pv.page == p)|
  {
    if views != [] {
      var init, last := views[..|views| - 1], views[|views| - 1];
      PagesCount(init, p);
      assert Pages(views) == Pages(init) + [last.page];
      OccurrencesAppend(Pages(init), [last.page], p);
      OccurrencesSingle(last.page, p);
    }
  }

  /**
   * A non-empty country occurs in `Countries` once per record from that
   * country, and `Countries` has one element per record with a truthy
   * country: records without one are skipped, not counted.
   */
  lemma {:induction false} CountriesCount(views: seq<PageView>, c: string)
    requires c != ""
    ensures Occurrences(Countries(views), c) == |Filter(views, (pv: PageView) => pv.country == Some(c))|
    ensures |Countries(views)| == |Filter(views, (pv: PageView) => Truthy(pv.country))|
  {
    if views != [] {
      var init, last := views[..|views| - 1], views[|views| - 1];
      CountriesCount(init, c);
      var tail := if Truthy(last.country) then [last.country.value] else [];
      assert Countries(views) == Countries(init) + tail;
      OccurrencesAppend(Countries(init), tail, c);
      if Truthy(last.country) {
        OccurrencesSingle(last.country.value, c);
      }
    }
  }

  /** `pageCounts`: the `reduce` over the records that counts each page. */
  method CountPages(views: seq<PageView>) returns (counts: seq<Entry>)
    ensures counts == TallyOf(Pages(views))
  {
    counts := [];
    var i := 0;
    while i < |views|
      invariant 0 <= i <= |views|
      invariant counts == TallyOf(Pages(views[..i]))
    {
      assert Pages(views[..i + 1])[..i] == Pages(views[..i]);
      counts := Bump(counts, views[i].page);
      i := i + 1;
    }
    assert views[..i] == views;
  }

  /** `countryCounts`: the `reduce` that counts each truthy country and skips the others. */
  method CountCountries(views: seq<PageView>) returns (counts: seq<Entry>)
    ensures counts == TallyOf(Countries(views))
  {
    counts := [];
    var i := 0;
    while i < |views|
      invariant 0 <= i <= |views|
      invariant counts == TallyOf(Countries(views[..i]))
    {
      ghost var before := Countries(views[..i]);
      assert views[..i + 1][..i] == views[..i];
      if Truthy(views[i].country) {
        var c := views[i].country.value;
        assert Countries(views[..i + 1]) == before + [c];
        assert (before + [c])[..|before|] == before;
        counts := Bump(counts, c);
      } else {
        assert Countries(views[..i + 1]) == before;
      }
      i := i + 1;
    }
    assert views[..i] == views;
  }

  // ---------------------------------------------------------------- sorting

  predicate NonIncreasing(entries: seq<Entry>)
  {
    forall i, j :: 0 <= i < j < |entries| ==> entries[i].count >= entries[j].count
  }

  /** Place `e` before the first entry with a smaller count. */
  function Insert(e: Entry, sorted: seq<Entry>): (r: seq<Entry>)
    ensures multiset(r) == multiset(sorted) + multiset{e}
    ensures |r| == |sorted| + 1
  {
    if sorted == [] || e.count >= sorted[0].count then [e] + sorted
    else
      assert sorted == [sorted[0]] + sorted[1..];
      [sorted[0]] + Insert(e, sorted[1..])
  }

  lemma {:induction false} InsertBound(e: Entry, l: seq<Entry>, b: nat)
    requires e.count <= b
    requires forall j :: 0 <= j < |l| ==> l[j].count <= b
    ensures forall j :: 0 <= j < |Insert(e, l)| ==> Insert(e, l)[j].count <= b
  {
    if l != [] && e.count < l[0].count {
      InsertBound(e, l[1..], b);
    }
  }

  lemma {:induction false} InsertSorted(e: Entry, sorted: seq<Entry>)
    requires NonIncreasing(sorted)
    ensures NonIncreasing(Insert(e, sorted))
  {
    if sorted != [] && e.count < sorted[0].count {
      var rest := sorted[1..];
      InsertSorted(e, rest);
      InsertBound(e, rest, sorted[0].count);
      assert Insert(e, sorted) == [sorted[0]] + Insert(e, rest);
    }
  }

  /**
   * `.sort((a, b) => b[1] - a[1])`, which is stable: each entry is placed
   * ahead of the later ones with the same count.
   */
  function SortByCount(entries: seq<Entry>): (r: seq<Entry>)
    ensures multiset(r) == multiset(entries)
    ensures |r| == |entries|
  {
    if entries == [] then []
    else
      assert entries == [entries[0]] + entries[1..];
      Insert(entries[0], SortByCount(entries[1..]))
  }

  lemma {:induction false} SortedByCount(entries: seq<Entry>)
    ensures NonIncreasing(SortByCount(entries))
  {
    if entries != [] {
      SortedByCount(entries[1..]);
      InsertSorted(entries[0], SortByCount(entries[1..]));
    }
  }

  /** The entries with count `c`, in their order. */
  function WithCount(entries: seq<Entry>, c: nat): seq<Entry>
  {
    if entries == [] then []
    else (if entries[0].count == c then [entries[0]] else []) + WithCount(entries[1..], c)
  }

  /** `WithCount` holds exactly the entries with count `c`. */
  lemma {:induction false} WithCountMembers(entries: seq<Entry>, c: nat)
    ensures forall e :: e in WithCount(entries, c) <==> e in entries && e.count == c
  {
    if entries != [] {
      WithCountMembers(entries[1..], c);
      assert entries == [entries[0]] + entries[1..];
    }
  }

  lemma WithCountCons(x: Entry, s: seq<Entry>, c: nat)
    ensures WithCount([x] + s, c) == (if x.count == c then [x] else []) + WithCount(s, c)
  {
    assert ([x] + s)[0] == x && ([x] + s)[1..] == s;
  }

  /** Inserting `e` puts it ahead of every entry with its own count, and leaves the others' order alone. */
  lemma {:induction false} InsertWithCount(e: Entry, sorted: seq<Entry>, c: nat)
    ensures WithCount(Insert(e, sorted), c) == (if e.count == c then [e] else []) + WithCount(sorted, c)
  {
    if sorted != [] && e.count < sorted[0].count {
      var x, rest := sorted[0], sorted[1..];
      var head := if x.count == c then [x] else [];
      var mine := if e.count == c then [e] else [];
      assert sorted == [x] + rest;
      assert Insert(e, sorted) == [x] + Insert(e, rest);
      calc {
        WithCount(Insert(e, sorted), c);
        { WithCountCons(x, Insert(e, rest), c); }
        head + WithCount(Insert(e, rest), c);
        { InsertWithCount(e, rest, c); }
        head + (mine + WithCount(rest, c));
        { WithCountCons(x, rest, c); }
        mine + WithCount(sorted, c);
      }
    } else {
      WithCountCons(e, sorted, c);
    }
  }

  /** The sort is stable: entries with the same count keep their relative order. */
  lemma {:induction false} SortStable(entries: seq<Entry>, c: nat)
    ensures WithCount(SortByCount(entries), c) == WithCount(entries, c)
  {
    if entries != [] {
      SortStable(entries[1..], c);
      InsertWithCount(entries[0], SortByCount(entries[1..]), c);
    }
  }

  /** `.slice(0, n)`. */
  function Take<T>(s: seq<T>, n: nat): (r: seq<T>)
    ensures |r| == if |s| <= n then |s| else n
    ensures r == s[..|r|]
  {
    if |s| <= n then s else s[..n]
  }

  /** The five entries with the highest counts, highest first. */
  function Top5(entries: seq<Entry>): seq<Entry>
  {
    Take(SortByCount(entries), 5)
  }

  lemma Top5Members(entries: seq<Entry>)
    ensures forall e :: e in Top5(entries) ==> e in entries
  {
    var sorted := SortByCount(entries);
    forall e | e in Top5(entries) ensures e in entries {
      assert e in multiset(sorted);
    }
  }

  lemma Top5Size(entries: seq<Entry>)
    ensures |Top5(entries)| <= 5
    ensures Top5(entries) == [] <==> entries == []
  {
    assert |SortByCount(entries)| == |entries|;
  }

  lemma Top5Sorted(entries: seq<Entry>)
    ensures NonIncreasing(Top5(entries))
  {
    SortedByCount(entries);
  }

  lemma Top5Best(entries: seq<Entry>)
    ensures forall e, t :: e in entries && e !in Top5(entries) && t in Top5(entries) ==> t.count >= e.count
  {
    var sorted := SortByCount(entries);
    var top := Top5(entries);
    SortedByCount(entries);
    forall e, t | e in entries && e !in top && t in top ensures t.count >= e.count {
      assert e in multiset(entries);
      var k :| 0 <= k < |sorted| && sorted[k] == e;
      var m :| 0 <= m < |top| && top[m] == t;
      assert sorted[m] == t;
    }
  }

  /**
   * The top entries are entries of the record, at most five, highest
   * first, and every entry left out has a count no higher than any entry
   * kept; there are none only when the record is empty.
   */
  lemma Top5Spec(entries: seq<Entry>)
    ensures var top := Top5(entries);
      && |top| <= 5
      && (top == [] <==> entries == [])
      && NonIncreasing(top)
      && (forall e :: e in top ==> e in entries)
      && (forall e, t :: e in entries && e !in top && t in top ==> t.count >= e.count)
  {
    Top5Members(entries);
    Top5Size(entries);
    Top5Sorted(entries);
    Top5Best(entries);
  }

  // ----------------------------------------------------------------- shares

  datatype CountryShare = CountryShare(country: string, visits: nat, percentTenths: nat)

  /** `Math.round(visits / total * 1000)`, in exact arithmetic: the share in tenths of a percent, half rounded up. */
  function PercentTenths(visits: nat, total: nat): nat
    requires total > 0
  {
    (2000 * visits + total) / (2 * total)
  }

  lemma MulLessCancel(a: int, b: int, c: int)
    requires c > 0 && a * c < b * c
    ensures a < b
  {
  }

  /**
   * The share is `1000 * visits / total` rounded to the nearest integer,
   * halves up, and it is at most 1000 (100.0 %) when `visits <= total`.
   */
  lemma PercentTenthsRounds(visits: nat, total: nat)
    requires total > 0
    ensures PercentTenths(visits, total) * (2 * total) <= 2000 * visits + total
    ensures 2000 * visits + total < (PercentTenths(visits, total) + 1) * (2 * total)
    ensures visits <= total ==> PercentTenths(visits, total) <= 1000
  {
    var n := 2000 * visits + total;
    var d := 2 * total;
    var p := n / d;
    assert n == p * d + n % d;
    assert (p + 1) * d == p * d + d;
    if visits <= total {
      assert n < 1001 * d;
      MulLessCancel(p, 1001, d);
    }
  }

  /** `topCountries`: the top five countries with their shares of all counted country visits. */
  function TopCountries(counts: seq<Entry>): seq<CountryShare>
  {
    var total := if TotalCount(counts) == 0 then 1 else TotalCount(counts);
    var top := Top5(counts);
    seq(|top|, i requires 0 <= i < |top| => CountryShare(top[i].key, top[i].count, PercentTenths(top[i].count, total)))
  }

  // ----------------------------------------------------------- recent users

  /** One row of `recentUsers`. The displayed date is the record's timestamp. */
  datatype RecentUser = RecentUser(id: nat, country: string, city: string, page: string, timestamp: int)

  /** The records with a truthy country and a truthy city. */
  function Tagged(s: seq<PageView>): seq<PageView>
  {
    Filter(s, (pv: PageView) => Truthy(pv.country) && Truthy(pv.city))
  }

  /** `recentUsers`: the last 20 tagged records, most recent first, numbered from 1. */
  function RecentUsers(s: seq<PageView>): seq<RecentUser>
  {
    var last := TakeLast(Tagged(s), 20);
    seq(|last|, i requires 0 <= i < |last| =>
      var pv := last[|last| - 1 - i];
      RecentUser(i + 1, if pv.country.Some? then pv.country.value else "",
                 if pv.city.Some? then pv.city.value else "", pv.page, pv.timestamp))
  }

  lemma TaggedTruthy(s: seq<PageView>, pv: PageView)
    requires pv in Tagged(s)
    ensures pv in s && Truthy(pv.country) && Truthy(pv.city)
  {
  }

  /** Row `i` of `recentUsers` is the `i`-th tagged record counting from the end. */
  lemma RecentUserRow(s: seq<PageView>, i: nat)
    requires i < |RecentUsers(s)|
    ensures var r := RecentUsers(s)[i]; var t := Tagged(s);
      && i < |t|
      && r.id == i + 1
      && r.country != "" && r.city != ""
      && t[|t| - 1 - i].country == Some(r.country)
      && t[|t| - 1 - i].city == Some(r.city)
      && r.page == t[|t| - 1 - i].page
      && r.timestamp == t[|t| - 1 - i].timestamp
  {
    var t := Tagged(s);
    var last := TakeLast(t, 20);
    var n := |last|;
    var pv := t[|t| - 1 - i];
    assert last == t[|t| - n..];
    assert last[n - 1 - i] == pv;
    TaggedTruthy(s, pv);
    assert RecentUsers(s)[i] == RecentUser(i + 1, pv.country.value, pv.city.value, pv.page, pv.timestamp);
  }

  /**
   * At most 20 rows, numbered 1 to n; row `i` is the `i`-th tagged record
   * counting from the end, with its country and city, both non-empty.
   */
  lemma RecentUsersRows(s: seq<PageView>)
    ensures var r := RecentUsers(s); var t := Tagged(s);
      && |r| == (if |t| <= 20 then |t| else 20)
      && (forall i :: 0 <= i < |r| ==>
            && r[i].id == i + 1
            && r[i].country != "" && r[i].city != ""
            && t[|t| - 1 - i].country == Some(r[i].country)
            && t[|t| - 1 - i].city == Some(r[i].city)
            && r[i].page == t[|t| - 1 - i].page
            && r[i].timestamp == t[|t| - 1 - i].timestamp)
  {
    forall i | 0 <= i < |RecentUsers(s)| {
      RecentUserRow(s, i);
    }
  }

  /** For a chronological log the rows go from the most recent visit to the oldest. */
  lemma RecentUsersOrder(s: seq<PageView>)
    requires Chronological(s)
    ensures forall i, j :: 0 <= i < j < |RecentUsers(s)| ==> RecentUsers(s)[i].timestamp >= RecentUsers(s)[j].timestamp
  {
    FilterChronological(s, (pv: PageView) => Truthy(pv.country) && Truthy(pv.city));
  }

  // --------------------------------------------------------------- snapshot

  datatype Snapshot = Snapshot(
    today: WindowStats,
    week: WindowStats,
    month: WindowStats,
    topPages: seq<Entry>,
    topCountries: seq<CountryShare>,
    recentUsers: seq<RecentUser>)

  /** The placeholder top page when the month is empty. */
  const NoPages: seq<Entry> := [Entry("/", 0)]
  /** The placeholder top country when no month record has a country. */
  const NoCountries: seq<CountryShare> := [CountryShare("FR", 0, 0)]

  /** What `getAnalytics` returns for the stored records at time `now` with local midnight `todayStart`. */
  function SnapshotOf(s: seq<PageView>, now: int, todayStart: int): Snapshot
  {
    var month := Since(s, now - RetentionSpan);
    Snapshot(
      WindowOf(Since(s, todayStart)),
      WindowOf(Since(s, now - WeekSpan)),
      WindowOf(month),
      TopPagesOf(month),
      TopCountriesOf(month),
      RecentUsers(s))
  }

  /** `topPages` of the month's records, or the placeholder. */
  function TopPagesOf(month: seq<PageView>): seq<Entry>
  {
    var top := Top5(TallyOf(Pages(month)));
    if |top| > 0 then top else NoPages
  }

  /** `topCountries` of the month's records, or the placeholder. */
  function TopCountriesOf(month: seq<PageView>): seq<CountryShare>
  {
    var top := TopCountries(TallyOf(Countries(month)));
    if |top| > 0 then top else NoCountries
  }

  /**
   * Each window counts its records twice over and estimates no more
   * visitors than records, none exactly when it is empty; with midnight no
   * earlier than a week ago, today <= week <= month.
   */
  lemma WindowsSpec(s: seq<PageView>, now: int, todayStart: int)
    ensures var snap := SnapshotOf(s, now, todayStart);
      && snap.today.visits == snap.today.pageViews == |Since(s, todayStart)|
      && snap.week.visits == snap.week.pageViews == |Since(s, now - WeekSpan)|
      && snap.month.visits == snap.month.pageViews == |Since(s, now - RetentionSpan)|
      && snap.today.uniqueVisitors <= snap.today.visits
      && snap.week.uniqueVisitors <= snap.week.visits
      && snap.month.uniqueVisitors <= snap.month.visits
      && (snap.month.uniqueVisitors == 0 <==> snap.month.visits == 0)
      && snap.week.visits <= snap.month.visits
    ensures todayStart >= now - WeekSpan ==>
      SnapshotOf(s, now, todayStart).today.visits <= SnapshotOf(s, now, todayStart).week.visits
  {
    SessionsBound(Since(s, todayStart));
    SessionsBound(Since(s, now - WeekSpan));
    SessionsBound(Since(s, now - RetentionSpan));
    SinceMonotone(s, now - WeekSpan, now - RetentionSpan);
    if todayStart >= now - WeekSpan {
      SinceMonotone(s, todayStart, now - WeekSpan);
    }
  }

  /** Counting pages: the record has one entry per page and one count per record. */
  lemma {:induction false} PagesOccur(views: seq<PageView>, p: string)
    ensures p in Pages(views) <==> exists pv :: pv in views && pv.page == p
  {
    if p in Pages(views) {
      var i :| 0 <= i < |views| && Pages(views)[i] == p;
      assert views[i] in views;
    }
    if exists pv :: pv in views && pv.page == p {
      var pv :| pv in views && pv.page == p;
      var i :| 0 <= i < |views| && views[i] == pv;
      assert Pages(views)[i] == p;
    }
  }

  /**
   * `topPages`: one to five entries, highest count first; the placeholder
   * exactly when the month is empty; otherwise each entry counts the month
   * records for its page, and no page left out has more.
   */
  lemma TopPagesSpec(month: seq<PageView>)
    ensures var top := TopPagesOf(month);
      && 1 <= |top| <= 5
      && NonIncreasing(top)
      && (top == NoPages <==> month == [])
      && (month != [] ==>
            && (forall e :: e in top ==> e.count == Occurrences(Pages(month), e.key) >= 1)
            && (forall e, t :: e in TallyOf(Pages(month)) && e !in top && t in top ==> t.count >= e.count))
  {
    var tally := TallyOf(Pages(month));
    TallySpec(Pages(month));
    Top5Spec(tally);
    if month != [] {
      assert Pages(month)[0] in Pages(month);
      assert tally != [];
      var top := Top5(tally);
      forall e | e in top ensures e.count == Occurrences(Pages(month), e.key) >= 1 {
        var i :| 0 <= i < |tally| && tally[i] == e;
      }
      assert top[0] in top;
    } else {
      assert Pages(month) == [];
      assert tally == [];
    }
  }

  /** One share: the entry's count is its key's occurrences, and its share is at most 100 %. */
  lemma ShareRow(keys: seq<string>, i: nat)
    requires i < |TopCountries(TallyOf(keys))|
    ensures var c := TopCountries(TallyOf(keys))[i];
      && c.visits == Occurrences(keys, c.country) >= 1
      && c.percentTenths == PercentTenths(c.visits, |keys|) <= 1000
  {
    var tally := TallyOf(keys);
    TallySpec(keys);
    Top5Members(tally);
    var t5 := Top5(tally);
    assert t5[i] in t5;
    var k :| 0 <= k < |tally| && tally[k] == t5[i];
    PercentTenthsRounds(t5[i].count, |keys|);
  }

  /**
   * The shares of a counting record: at most five, highest count first,
   * none only for no keys; each counts its key's occurrences and its share
   * of all keys is in 0..1000 tenths of a percent.
   */
  lemma SharesOf(keys: seq<string>)
    ensures var r := TopCountries(TallyOf(keys));
      && |r| <= 5
      && (r == [] <==> keys == [])
      && (forall i, j :: 0 <= i < j < |r| ==> r[i].visits >= r[j].visits)
      && (forall i :: 0 <= i < |r| ==>
            && r[i].visits == Occurrences(keys, r[i].country) >= 1
            && r[i].percentTenths == PercentTenths(r[i].visits, |keys|) <= 1000)
  {
    var tally := TallyOf(keys);
    var r := TopCountries(tally);
    TallySpec(keys);
    Top5Size(tally);
    Top5Sorted(tally);
    forall i | 0 <= i < |r|
      ensures r[i].visits == Occurrences(keys, r[i].country) >= 1
      ensures r[i].percentTenths == PercentTenths(r[i].visits, |keys|) <= 1000
    {
      ShareRow(keys, i);
    }
  }

  /**
   * `topCountries`: one to five entries, highest first, counting only
   * records with a country; each share is in 0..1000 tenths of a percent
   * of all such records; the placeholder exactly when there are none.
   */
  lemma TopCountriesSpec(month: seq<PageView>)
    ensures var top := TopCountriesOf(month); var countries := Countries(month);
      && 1 <= |top| <= 5
      && (forall i, j :: 0 <= i < j < |top| ==> top[i].visits >= top[j].visits)
      && (top == NoCountries <==> countries == [])
      && (countries != [] ==> forall i :: 0 <= i < |top| ==>
            && top[i].visits == Occurrences(countries, top[i].country) >= 1
            && top[i].percentTenths == PercentTenths(top[i].visits, |countries|) <= 1000)
  {
    var countries := Countries(month);
    SharesOf(countries);
    var shares := TopCountries(TallyOf(countries));
    if shares != [] {
      assert shares[0].visits >= 1;
    }
  }

  /** The recent visitors come from the whole stored log, not only the month. */
  lemma RecentUsersOfLog(s: seq<PageView>, now: int, todayStart: int)
    ensures SnapshotOf(s, now, todayStart).recentUsers == RecentUsers(s)
    ensures |SnapshotOf(s, now, todayStart).recentUsers| <= 20
  {
  }

  /**
   * `getAnalytics`: reads the stored log, counts through the loops of the
   * source, and changes nothing: the method has no `modifies` clause.
   */
  method GetAnalytics(store: AnalyticsStore, now: int, todayStart: int) returns (snap: Snapshot)
    ensures snap == SnapshotOf(Load(store.slot, now).pageViews, now, todayStart)
  {
    var data := Load(store.slot, now);
    var todayViews := Since(data.pageViews, todayStart);
    var weekViews := Since(data.pageViews, now - WeekSpan);
    var monthViews := Since(data.pageViews, now - RetentionSpan);
    var todayUnique := UniqueVisitors(todayViews);
    var weekUnique := UniqueVisitors(weekViews);
    var monthUnique := UniqueVisitors(monthViews);
    var pageCounts := CountPages(monthViews);
    var topPages := Top5(pageCounts);
    var countryCounts := CountCountries(monthViews);
    var topCountries := TopCountries(countryCounts);
    snap := Snapshot(
      WindowStats(|todayViews|, |todayViews|, todayUnique),
      WindowStats(|weekViews|, |weekViews|, weekUnique),
      WindowStats(|monthViews|, |monthViews|, monthUnique),
      if |topPages| > 0 then topPages else NoPages,
      if |topCountries| > 0 then topCountries else NoCountries,
      RecentUsers(data.pageViews));
  }
}
