/** The listing scan that dccr.py, 12cr.py and 52cr.py repeat in `get_entries_to_scan`:
    visit pages `page .. page + span - 1`; on each page look at the rows in order;
    a row is skipped, ends the whole scan ("too old"), or contributes an article id.
    Each site supplies its own row classifier; the page fetch is a function of the
    page number. */
module Listing {

  /** What a scan does with one row. */
  datatype Verdict = Skip | Stop | Take(id: string)

  /** The ids a scan collects from a run of verdicts: every `Take` before the first
      `Stop`, in order. */
  function Collect(vs: seq<Verdict>): seq<string>
    decreases |vs|
  {
    if vs == [] then []
    else match vs[0]
      case Stop => []
      case Skip => Collect(vs[1..])
      case Take(id) => [id] + Collect(vs[1..])
  }

  function Classified<R>(rows: seq<R>, classify: R -> Verdict): (vs: seq<Verdict>)
    ensures |vs| == |rows|
    ensures forall i :: 0 <= i < |rows| ==> vs[i] == classify(rows[i])
    decreases |rows|
  {
    if rows == [] then [] else [classify(rows[0])] + Classified(rows[1..], classify)
  }

  /** The verdicts of every row of pages `first .. last`, page after page. */
  function Verdicts<R>(pages: int -> seq<R>, classify: R -> Verdict, first: int, last: int): seq<Verdict>
    decreases last - first + 1
  {
    if first > last then [] else Classified(pages(first), classify) + Verdicts(pages, classify, first + 1, last)
  }

  /** The row loop of one page: the ids it collects, and whether it met a row
      that ends the whole scan. */
  method ScanRows<R>(rows: seq<R>, classify: R -> Verdict) returns (ids: seq<string>, stopped: bool)
    ensures stopped <==> Stop in Classified(rows, classify)
    ensures ids == Collect(Classified(rows, classify))
  {
    ghost var here := Classified(rows, classify);
    ids := [];
    for i := 0 to |rows|
      invariant ids == Collect(here[..i])
      invariant Stop !in here[..i]
    {
      assert here[..i + 1] == here[..i] + [here[i]];
      CollectAppend(here[..i], [here[i]]);
      match classify(rows[i]) {
        case Stop =>
          CollectStopped(here[..i + 1], here[i + 1..]);
          assert here[..i + 1] + here[i + 1..] == here;
          assert here[i] in here;
          return ids, true;
        case Skip =>
        case Take(id) =>
          ids := ids + [id];
      }
    }
    assert here[..|rows|] == here;
    stopped := false;
  }

  /** The ids the page loop collects from pages `first .. last`: a page that holds a
      `Stop` row is the last one looked at. */
  function ScanFrom<R>(pages: int -> seq<R>, classify: R -> Verdict, first: int, last: int): seq<string>
    decreases last - first + 1
  {
    if first > last then []
    else
      var here := Classified(pages(first), classify);
      if Stop in here then Collect(here) else Collect(here) + ScanFrom(pages, classify, first + 1, last)
  }

  /** How many pages the loop requests when it runs over pages `first .. last`. */
  function PagesVisited<R>(pages: int -> seq<R>, classify: R -> Verdict, first: int, last: int): nat
    decreases last - first + 1
  {
    if first > last then 0
    else if Stop in Classified(pages(first), classify) then 1
    else 1 + PagesVisited(pages, classify, first + 1, last)
  }

  /** The shared page loop of `get_entries_to_scan`: pages `page .. page + span - 1`
      are requested in order until one holds a row that ends the scan. */
  method ScanPages<R>(pages: int -> seq<R>, classify: R -> Verdict, page: int, span: int)
    returns (toScan: seq<string>, visited: nat)
    ensures toScan == Collect(Verdicts(pages, classify, page, page + span - 1))
    ensures visited == PagesVisited(pages, classify, page, page + span - 1)
  {
    var maxPage := page + span - 1;
    var p := page;
    toScan, visited := [], 0;
    while p <= maxPage
      invariant p == page + visited
      invariant ScanFrom(pages, classify, page, maxPage) == toScan + ScanFrom(pages, classify, p, maxPage)
      invariant PagesVisited(pages, classify, page, maxPage) == visited + PagesVisited(pages, classify, p, maxPage)
      decreases maxPage - p
    {
      var ids, stopped := ScanRows(pages(p), classify);
      visited := visited + 1;
      toScan := toScan + ids;
      if stopped {
        break;
      }
      p := p + 1;
    }
    ScanFromCollect(pages, classify, page, maxPage);
  }

  // ---------------------------------------------------------------------------
  // Lemmas

  /** Page by page collecting is collecting over all the rows of the range. */
  lemma {:induction false} ScanFromCollect<R>(pages: int -> seq<R>, classify: R -> Verdict, first: int, last: int)
    ensures ScanFrom(pages, classify, first, last) == Collect(Verdicts(pages, classify, first, last))
    decreases last - first + 1
  {
    if first <= last {
      var here := Classified(pages(first), classify);
      var rest := Verdicts(pages, classify, first + 1, last);
      if Stop in here {
        CollectStopped(here, rest);
      } else {
        ScanFromCollect(pages, classify, first + 1, last);
        CollectAppend(here, rest);
      }
    }
  }

  /** The loop requests at most the whole range; it stops early only because the
      last requested page holds a `Stop` row, and no page before that one does. */
  lemma {:induction false} PagesVisitedSpec<R>(pages: int -> seq<R>, classify: R -> Verdict, first: int, last: int)
    ensures var n := PagesVisited(pages, classify, first, last);
      && n <= (if first <= last then last - first + 1 else 0)
      && (n < last - first + 1 ==> Stop in Verdicts(pages, classify, first, first + n - 1))
      && Stop !in Verdicts(pages, classify, first, first + n - 2)
    decreases last - first + 1
  {
    if first <= last {
      var here := Classified(pages(first), classify);
      var n := PagesVisited(pages, classify, first, last);
      if Stop in here {
        assert Verdicts(pages, classify, first, first) == here + [];
      } else {
        PagesVisitedSpec(pages, classify, first + 1, last);
        PagesVisitedLater(pages, classify, first, last);
      }
    }
  }

  /** The inductive step of `PagesVisitedSpec`, past a page without a `Stop` row. */
  lemma PagesVisitedLater<R>(pages: int -> seq<R>, classify: R -> Verdict, first: int, last: int)
    requires first <= last && Stop !in Classified(pages(first), classify)
    requires var m := PagesVisited(pages, classify, first + 1, last);
      && (m < last - first ==> Stop in Verdicts(pages, classify, first + 1, first + m))
      && Stop !in Verdicts(pages, classify, first + 1, first + m - 1)
    ensures var n := PagesVisited(pages, classify, first, last);
      && (n < last - first + 1 ==> Stop in Verdicts(pages, classify, first, first + n - 1))
      && Stop !in Verdicts(pages, classify, first, first + n - 2)
  {
    var here := Classified(pages(first), classify);
    var m := PagesVisited(pages, classify, first + 1, last);
    assert Verdicts(pages, classify, first, first + m) == here + Verdicts(pages, classify, first + 1, first + m);
    if m >= 1 {
      assert Verdicts(pages, classify, first, first + m - 1) == here + Verdicts(pages, classify, first + 1, first + m - 1);
    }
  }

  /** The verdicts of a page range are those of its two halves. */
  lemma {:induction false} VerdictsSplit<R>(pages: int -> seq<R>, classify: R -> Verdict, first: int, mid: int, last: int)
    requires first <= mid <= last + 1
    ensures Verdicts(pages, classify, first, last)
      == Verdicts(pages, classify, first, mid - 1) + Verdicts(pages, classify, mid, last)
    decreases mid - first
  {
    if first < mid {
      VerdictsSplit(pages, classify, first + 1, mid, last);
    }
  }

  /** A verdict occurs on a page exactly when some row of it is classified so. */
  lemma ClassifiedMembers<R>(rows: seq<R>, classify: R -> Verdict, v: Verdict)
    ensures v in Classified(rows, classify) <==> exists i :: 0 <= i < |rows| && classify(rows[i]) == v
  {
    var here := Classified(rows, classify);
    if v in here {
      var i :| 0 <= i < |here| && here[i] == v;
      assert classify(rows[i]) == v;
    }
  }

  /** A verdict occurs in a page range exactly when some row of some page in the
      range is classified so. */
  lemma {:induction false} VerdictsMembers<R>(pages: int -> seq<R>, classify: R -> Verdict, first: int, last: int, v: Verdict)
    ensures v in Verdicts(pages, classify, first, last) <==>
      exists p, i :: first <= p <= last && 0 <= i < |pages(p)| && classify(pages(p)[i]) == v
    decreases last - first + 1
  {
    if first <= last {
      VerdictsMembers(pages, classify, first + 1, last, v);
      ClassifiedMembers(pages(first), classify, v);
      if exists p, i :: first <= p <= last && 0 <= i < |pages(p)| && classify(pages(p)[i]) == v {
        var p, i :| first <= p <= last && 0 <= i < |pages(p)| && classify(pages(p)[i]) == v;
        if p == first {
          assert v in Classified(pages(first), classify);
        }
      }
    }
  }

  /** Before the first `Stop`, collecting is compositional. */
  lemma {:induction false} CollectAppend(vs: seq<Verdict>, ws: seq<Verdict>)
    requires Stop !in vs
    ensures Collect(vs + ws) == Collect(vs) + Collect(ws)
    decreases |vs|
  {
    if vs != [] {
      assert (vs + ws)[1..] == vs[1..] + ws;
      assert vs[0] != Stop;
      CollectAppend(vs[1..], ws);
    } else {
      assert vs + ws == ws;
    }
  }

  /** Nothing after a `Stop` is collected. */
  lemma {:induction false} CollectStopped(vs: seq<Verdict>, ws: seq<Verdict>)
    requires Stop in vs
    ensures Collect(vs + ws) == Collect(vs)
    decreases |vs|
  {
    assert vs != [];
    if vs[0] != Stop {
      assert (vs + ws)[1..] == vs[1..] + ws;
      assert Stop in vs[1..];
      CollectStopped(vs[1..], ws);
    }
  }

  /** An id is collected exactly when some row says `Take` for it and no row before it
      says `Stop`. */
  lemma CollectMembership(vs: seq<Verdict>, id: string)
    ensures id in Collect(vs) <==> exists i :: 0 <= i < |vs| && vs[i] == Take(id) && Stop !in vs[..i]
  {
    if id in Collect(vs) {
      var i := CollectedIndex(vs, id);
    } else {
      forall i | 0 <= i < |vs| && vs[i] == Take(id)
        ensures Stop in vs[..i]
      {
        StopBefore(vs, id, i);
      }
    }
  }

  /** The first `Take` of a collected id, with no `Stop` before it. */
  lemma {:induction false} CollectedIndex(vs: seq<Verdict>, id: string) returns (i: int)
    requires id in Collect(vs)
    ensures 0 <= i < |vs| && vs[i] == Take(id) && Stop !in vs[..i]
    decreases |vs|
  {
    if vs[0] == Take(id) {
      i := 0;
      assert vs[..0] == [];
    } else {
      var j := CollectedIndex(vs[1..], id);
      i := j + 1;
      assert vs[..i] == [vs[0]] + vs[1..][..j];
    }
  }

  /** A `Take` of an id that is not collected has a `Stop` before it. */
  lemma {:induction false} StopBefore(vs: seq<Verdict>, id: string, i: int)
    requires id !in Collect(vs) && 0 <= i < |vs| && vs[i] == Take(id)
    ensures Stop in vs[..i]
    decreases i
  {
    if vs[0] == Stop {
      assert vs[..i][0] == Stop;
    } else {
      StopBefore(vs[1..], id, i - 1);
      assert vs[..i] == [vs[0]] + vs[1..][..i - 1];
    }
  }

  /** Every collected id comes from a `Take` verdict. */
  lemma {:induction false} CollectTaken(vs: seq<Verdict>, id: string)
    requires id in Collect(vs)
    ensures Take(id) in vs
    decreases |vs|
  {
    if vs[0] != Take(id) {
      CollectTaken(vs[1..], id);
    }
  }

  /** Every id a scan of pages `first .. last` collects is taken from some row of
      those pages. */
  lemma CollectedFrom<R>(pages: int -> seq<R>, classify: R -> Verdict, first: int, last: int, id: string)
    returns (p: int, i: int)
    requires id in Collect(Verdicts(pages, classify, first, last))
    ensures first <= p <= last && 0 <= i < |pages(p)| && classify(pages(p)[i]) == Take(id)
  {
    CollectTaken(Verdicts(pages, classify, first, last), id);
    VerdictsMembers(pages, classify, first, last, Take(id));
    p, i :| first <= p <= last && 0 <= i < |pages(p)| && classify(pages(p)[i]) == Take(id);
  }

  /** The collected ids are at most as many as the rows. */
  lemma {:induction false} CollectLength(vs: seq<Verdict>)
    ensures |Collect(vs)| <= |vs|
    decreases |vs|
  {
    if vs != [] {
      CollectLength(vs[1..]);
    }
  }
}
