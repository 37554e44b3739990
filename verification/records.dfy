/** Redaction records and the audit log: records are grouped by page, pages
    in order of first appearance, records of one page in input order (the
    behaviour of the `defaultdict(list)` keyed by page). */
module Records {
  import opened Geometry

  /** One accepted region: its page, its render-space rectangle and its
      identifier. */
  datatype RedactionRecord = RedactionRecord(page: int, rect: Rect, redactionId: string)

  /** One audit-log entry (`RedactionLogEntryResult`). */
  datatype LogEntry = LogEntry(redactionId: string, page: int, x0: real, y0: real, x1: real, y1: real)

  /** The records on page `p`, in order. */
  function OnPage(rs: seq<RedactionRecord>, p: int): (r: seq<RedactionRecord>)
    ensures forall i :: 0 <= i < |r| ==> r[i].page == p
  {
    if |rs| == 0 then []
    else if rs[0].page == p then [rs[0]] + OnPage(rs[1..], p)
    else OnPage(rs[1..], p)
  }

  /** The records not on page `p`, in order. */
  function OffPage(rs: seq<RedactionRecord>, p: int): (r: seq<RedactionRecord>)
    ensures forall i :: 0 <= i < |r| ==> r[i].page != p
    ensures |r| <= |rs|
    ensures |rs| > 0 && rs[0].page == p ==> |r| < |rs|
  {
    if |rs| == 0 then []
    else if rs[0].page == p then OffPage(rs[1..], p)
    else [rs[0]] + OffPage(rs[1..], p)
  }

  /** Splitting by a page loses and invents nothing. */
  lemma {:induction false} SplitByPage(rs: seq<RedactionRecord>, p: int)
    ensures multiset(OnPage(rs, p)) + multiset(OffPage(rs, p)) == multiset(rs)
    ensures |OnPage(rs, p)| + |OffPage(rs, p)| == |rs|
  {
    if |rs| > 0 {
      SplitByPage(rs[1..], p);
      assert rs == [rs[0]] + rs[1..];
    }
  }

  /** The index of the first record on page `p` (`|rs|` when there is none). */
  function FirstIndex(rs: seq<RedactionRecord>, p: int): (k: nat)
    ensures k <= |rs|
  {
    if |rs| == 0 then 0
    else if rs[0].page == p then 0
    else 1 + FirstIndex(rs[1..], p)
  }

  /** The records regrouped: all records of the first record's page, then
      the rest grouped the same way. */
  function GroupByPage(rs: seq<RedactionRecord>): (g: seq<RedactionRecord>)
    decreases |rs|
  {
    if |rs| == 0 then []
    else OnPage(rs, rs[0].page) + GroupByPage(OffPage(rs, rs[0].page))
  }

  /** Grouping is a permutation: every record is kept, as often as it occurs. */
  lemma {:induction false} GroupByPagePermutes(rs: seq<RedactionRecord>)
    ensures multiset(GroupByPage(rs)) == multiset(rs)
    ensures |GroupByPage(rs)| == |rs|
    decreases |rs|
  {
    if |rs| > 0 {
      SplitByPage(rs, rs[0].page);
      GroupByPagePermutes(OffPage(rs, rs[0].page));
    }
  }

  // Lemmas about the filters.

  lemma {:induction false} OnPageAppend(a: seq<RedactionRecord>, b: seq<RedactionRecord>, p: int)
    ensures OnPage(a + b, p) == OnPage(a, p) + OnPage(b, p)
  {
    if |a| > 0 {
      assert (a + b)[1..] == a[1..] + b;
      OnPageAppend(a[1..], b, p);
    } else {
      assert a + b == b;
    }
  }

  lemma {:induction false} OnPageOfOnPage(rs: seq<RedactionRecord>, p: int, q: int)
    ensures OnPage(OnPage(rs, p), q) == if p == q then OnPage(rs, p) else []
  {
    if |rs| > 0 {
      OnPageOfOnPage(rs[1..], p, q);
      if rs[0].page == p {
        assert ([rs[0]] + OnPage(rs[1..], p))[1..] == OnPage(rs[1..], p);
      }
    }
  }

  lemma {:induction false} OnPageOfOffPage(rs: seq<RedactionRecord>, p: int, q: int)
    ensures OnPage(OffPage(rs, p), q) == if p == q then [] else OnPage(rs, q)
  {
    if |rs| > 0 {
      OnPageOfOffPage(rs[1..], p, q);
      if rs[0].page != p {
        assert ([rs[0]] + OffPage(rs[1..], p))[1..] == OffPage(rs[1..], p);
      }
    }
  }

  /** Grouping keeps each page's records, and their order: the records of
      any one page are the same before and after. */
  lemma {:induction false} GroupByPageStable(rs: seq<RedactionRecord>, q: int)
    ensures OnPage(GroupByPage(rs), q) == OnPage(rs, q)
    decreases |rs|
  {
    if |rs| > 0 {
      var p := rs[0].page;
      var rest := OffPage(rs, p);
      SplitByPage(rs, p);
      GroupByPageStable(rest, q);
      OnPageAppend(OnPage(rs, p), GroupByPage(rest), q);
      OnPageOfOnPage(rs, p, q);
      OnPageOfOffPage(rs, p, q);
    }
  }

  /** Grouping the records off page `p` yields none on page `p`. */
  lemma GroupOffPageAvoids(rs: seq<RedactionRecord>, p: int)
    ensures forall j :: 0 <= j < |GroupByPage(OffPage(rs, p))| ==> GroupByPage(OffPage(rs, p))[j].page != p
  {
    var rest := OffPage(rs, p);
    var t := GroupByPage(rest);
    GroupByPagePermutes(rest);
    forall j | 0 <= j < |t|
      ensures t[j].page != p
    {
      assert t[j] in multiset(t);
      assert t[j] in rest;
    }
  }

  /** Records of one page are contiguous after grouping. */
  ghost predicate Contiguous(g: seq<RedactionRecord>) {
    forall i, j, k :: 0 <= i < j < k < |g| && g[i].page == g[k].page ==> g[j].page == g[i].page
  }

  lemma {:induction false} GroupByPageContiguous(rs: seq<RedactionRecord>)
    ensures Contiguous(GroupByPage(rs))
    decreases |rs|
  {
    if |rs| > 0 {
      var p := rs[0].page;
      var head := OnPage(rs, p);
      var rest := OffPage(rs, p);
      GroupByPageContiguous(rest);
      var tail := GroupByPage(rest);
      var g := head + tail;
      assert g == GroupByPage(rs);
      GroupOffPageAvoids(rs, p);
      forall i, j, k | 0 <= i < j < k < |g| && g[i].page == g[k].page
        ensures g[j].page == g[i].page
      {
        if i >= |head| {
          var i', j', k' := i - |head|, j - |head|, k - |head|;
          assert g[i] == tail[i'] && g[j] == tail[j'] && g[k] == tail[k'];
          assert tail[i'].page == tail[k'].page;
          assert 0 <= i' < j' < k' < |tail|;
          assert tail[j'].page == tail[i'].page;
        } else if k < |head| {
          assert g[j] == head[j];
        }
      }
    }
  }

  /** Removing the records of a page keeps the order in which the other
      pages first appear. */
  lemma {:induction false} FirstIndexOffPage(rs: seq<RedactionRecord>, p: int, a: int, b: int)
    requires a != p && b != p
    requires FirstIndex(OffPage(rs, p), a) < FirstIndex(OffPage(rs, p), b)
    ensures FirstIndex(rs, a) < FirstIndex(rs, b)
  {
    if |rs| > 0 {
      if rs[0].page == p {
        FirstIndexOffPage(rs[1..], p, a, b);
      } else {
        assert ([rs[0]] + OffPage(rs[1..], p))[1..] == OffPage(rs[1..], p);
        if rs[0].page != a && rs[0].page != b {
          FirstIndexOffPage(rs[1..], p, a, b);
        }
      }
    }
  }

  /** Pages come in the order of their first record in the input. */
  lemma {:induction false} GroupByPageFirstAppearance(rs: seq<RedactionRecord>)
    ensures forall i, j :: 0 <= i < j < |GroupByPage(rs)| && GroupByPage(rs)[i].page != GroupByPage(rs)[j].page ==>
      FirstIndex(rs, GroupByPage(rs)[i].page) < FirstIndex(rs, GroupByPage(rs)[j].page)
    decreases |rs|
  {
    if |rs| > 0 {
      var p := rs[0].page;
      var head := OnPage(rs, p);
      var rest := OffPage(rs, p);
      GroupByPageFirstAppearance(rest);
      var tail := GroupByPage(rest);
      var g := head + tail;
      assert g == GroupByPage(rs);
      GroupOffPageAvoids(rs, p);
      forall i, j | 0 <= i < j < |g| && g[i].page != g[j].page
        ensures FirstIndex(rs, g[i].page) < FirstIndex(rs, g[j].page)
      {
        if i < |head| {
          assert g[i].page == p;
        } else {
          var i', j' := i - |head|, j - |head|;
          assert g[i] == tail[i'] && g[j] == tail[j'];
          assert 0 <= i' < j' < |tail| && tail[i'].page != tail[j'].page;
          assert FirstIndex(rest, tail[i'].page) < FirstIndex(rest, tail[j'].page);
          assert tail[i'].page != p && tail[j'].page != p;
          FirstIndexOffPage(rs, p, g[i].page, g[j].page);
        }
      }
    }
  }

  function ToLogEntry(r: RedactionRecord): LogEntry {
    LogEntry(r.redactionId, r.page, r.rect.x0, r.rect.y0, r.rect.x1, r.rect.y1)
  }

  /** The audit log: one entry per record, in grouped order. Each entry
      carries its record's identifier, page and coordinates, so a record can
      be read back from its entry. */
  function AuditLog(rs: seq<RedactionRecord>): (log: seq<LogEntry>)
    ensures |log| == |GroupByPage(rs)|
    ensures forall i :: 0 <= i < |log| ==>
      RedactionRecord(log[i].page, Rect(log[i].x0, log[i].y0, log[i].x1, log[i].y1), log[i].redactionId) == GroupByPage(rs)[i]
  {
    var g := GroupByPage(rs);
    seq(|g|, i requires 0 <= i < |g| => ToLogEntry(g[i]))
  }
}
