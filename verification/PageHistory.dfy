/**
 The bounded cursor history that both acceptance panels keep per resource.

 `History` is the value of one pager; `Pager` is the object the M26 panel
 updates in place.  The upstream is opaque: a page request carries the cursor
 that the previous page answered with.
 */
module PageHistory {
  import opened Wrappers

  const MAX_CURSOR_HISTORY: nat := 64

  datatype Problem = Problem(status: int, code: string)

  const PAGING_CONTEXT_CHANGED := Problem(409, "paging_context_changed")
  const PAGE_UNAVAILABLE := Problem(409, "page_unavailable")
  const INVALID_DIRECTION := Problem(400, "invalid_direction")
  const PAGER_STATE_INVALID := Problem(500, "pager_state_invalid")

  type Cursor = string

  datatype PageEntry = PageEntry(number: nat, requestCursor: Option<Cursor>, nextCursor: Option<Cursor>)

  datatype History<F> = History(entries: seq<PageEntry>, position: nat, filters: Option<F>) {

    ghost predicate InRange() {
      if entries == [] then position == 0 else position < |entries|
    }

    /** The page on display. */
    function Current(): PageEntry
      requires entries != [] && position < |entries|
    {
      entries[position]
    }

    function Highest(): nat
    {
      if entries == [] then 0 else entries[|entries| - 1].number
    }
  }

  function Unloaded<F>(): History<F> {
    History([], 0, None)
  }

  function Min(a: nat, b: nat): nat {
    if a <= b then a else b
  }

  // ------------------------------------------------------------------
  // Moves on values
  // ------------------------------------------------------------------

  /** The history after choosing the page to request, or the refusal. */
  function Prepared<F(==)>(h: History<F>, direction: string, filters: F): Result<History<F>, Problem>
    requires h.InRange()
  {
    if direction == "first" then
      Ok(History([PageEntry(1, None, None)], 0, Some(filters)))
    else if h.entries == [] || h.filters != Some(filters) then
      Err(PAGING_CONTEXT_CHANGED)
    else if direction == "previous" then
      if h.position == 0 then Err(PAGE_UNAVAILABLE) else Ok(h.(position := h.position - 1))
    else if direction != "next" then
      Err(INVALID_DIRECTION)
    else if h.Current().nextCursor.None? then
      Err(PAGE_UNAVAILABLE)
    else if h.position + 1 < |h.entries| then
      Ok(h.(position := h.position + 1))
    else
      var grown := h.entries + [PageEntry(h.Current().number + 1, h.Current().nextCursor, None)];
      if |grown| > MAX_CURSOR_HISTORY
      then Ok(h.(entries := grown[1..]))
      else Ok(h.(entries := grown, position := h.position + 1))
  }

  /** The history once the upstream answered the page on display with `next`. */
  function Recorded<F>(h: History<F>, next: Option<Cursor>): History<F>
    requires h.entries != [] && h.InRange()
  {
    h.(entries := h.entries[h.position := h.Current().(nextCursor := next)])
  }

  // ------------------------------------------------------------------
  // The pager object
  // ------------------------------------------------------------------

  class Pager<F(==)> {
    var entries: seq<PageEntry>
    var position: nat
    var filters: Option<F>

    ghost function Value(): History<F>
      reads this
    {
      History(entries, position, filters)
    }

    constructor ()
      ensures Value() == Unloaded<F>()
    {
      entries, position, filters := [], 0, None;
    }

    constructor Copy(other: Pager<F>)
      ensures Value() == other.Value()
    {
      entries, position, filters := other.entries, other.position, other.filters;
    }

    /** Moves and returns the cursor to request; a refusal leaves the pager alone. */
    method Prepare(direction: string, wanted: F) returns (r: Result<Option<Cursor>, Problem>)
      requires Value().InRange()
      modifies this
      ensures match Prepared(old(Value()), direction, wanted)
              case Ok(h) =>
                && Value() == h
                && h.entries != [] && h.InRange()
                && r == Ok(h.Current().requestCursor)
              case Err(p) => Value() == old(Value()) && r == Err(p)
    {
      if direction == "first" {
        entries := [PageEntry(1, None, None)];
        position := 0;
        filters := Some(wanted);
        return Ok(None);
      }
      if entries == [] || filters != Some(wanted) {
        return Err(PAGING_CONTEXT_CHANGED);
      }
      if direction == "previous" {
        if position == 0 {
          return Err(PAGE_UNAVAILABLE);
        }
        position := position - 1;
        return Ok(entries[position].requestCursor);
      }
      if direction != "next" {
        return Err(INVALID_DIRECTION);
      }
      var current := entries[position];
      if current.nextCursor.None? {
        return Err(PAGE_UNAVAILABLE);
      }
      if position + 1 < |entries| {
        position := position + 1;
        return Ok(entries[position].requestCursor);
      }
      entries := entries + [PageEntry(current.number + 1, current.nextCursor, None)];
      position := position + 1;
      if |entries| > MAX_CURSOR_HISTORY {
        entries := entries[1..];
        position := position - 1;
      }
      return Ok(entries[position].requestCursor);
    }

    method Record(next: Option<Cursor>) returns (r: Result<(), Problem>)
      requires Value().InRange()
      modifies this
      ensures old(entries) == [] ==> r == Err(PAGER_STATE_INVALID) && Value() == old(Value())
      ensures old(entries) != [] ==> r == Ok(()) && Value() == Recorded(old(Value()), next)
    {
      if entries == [] {
        return Err(PAGER_STATE_INVALID);
      }
      entries := entries[position := entries[position].(nextCursor := next)];
      return Ok(());
    }
  }

  // ------------------------------------------------------------------
  // What every move keeps
  // ------------------------------------------------------------------

  /** Consecutive pages, the first of all without a cursor, at most 64 of them retained. */
  ghost predicate Window<F>(h: History<F>) {
    && h.InRange()
    && |h.entries| == Min(h.Highest(), MAX_CURSOR_HISTORY)
    && (forall i :: 0 <= i < |h.entries| ==>
          && h.entries[i].number == h.Highest() - |h.entries| + 1 + i
          && (h.entries[i].requestCursor.None? <==> h.entries[i].number == 1))
  }

  lemma PreparedKeepsWindow<F>(h: History<F>, direction: string, filters: F)
    requires Window(h)
    ensures Prepared(h, direction, filters).Ok? ==>
              var moved := Prepared(h, direction, filters).value;
              && Window(moved) && moved.entries != []
              && moved.filters == Some(filters)
              && moved.Highest() == (if direction == "first" then 1 else
                                     if moved.Current().number > h.Highest() then moved.Current().number else h.Highest())
  {
    if direction == "next" && Prepared(h, direction, filters).Ok? && h.position + 1 == |h.entries| {
      GrownKeepsWindow(h, PageEntry(h.Current().number + 1, h.Current().nextCursor, None));
    }
  }

  /** Appending the page after the highest, and dropping the oldest of more than 64. */
  lemma GrownKeepsWindow<F>(h: History<F>, entry: PageEntry)
    requires Window(h) && h.entries != [] && h.position == |h.entries| - 1
    requires entry.number == h.Highest() + 1 && entry.requestCursor.Some?
    ensures var grown := h.entries + [entry];
            var kept := if |grown| > MAX_CURSOR_HISTORY then h.(entries := grown[1..]) else h.(entries := grown, position := |h.entries|);
            Window(kept) && kept.Highest() == entry.number
  {
    var grown := h.entries + [entry];
    assert grown[|grown| - 1] == entry;
    assert forall i :: 0 <= i < |h.entries| ==> grown[i] == h.entries[i];
    if |grown| > MAX_CURSOR_HISTORY {
      var kept := grown[1..];
      assert forall i :: 0 <= i < |kept| ==> kept[i] == grown[i + 1];
      assert kept[|kept| - 1] == entry;
    }
  }

  /** The number of the page that a move displays. */
  ghost function Target<F>(h: History<F>, direction: string): int
    requires h.InRange()
  {
    if direction == "first" || h.entries == [] then 1
    else if direction == "next" then h.Current().number + 1
    else h.Current().number - 1
  }

  /** The history stands on page k of the list under `filters`. */
  ghost predicate StandsOn<F>(h: History<F>, k: int, filters: F) {
    h.entries != [] && h.InRange() && h.Current().number == k && h.filters == Some(filters)
  }

  /** When a move is possible, and that it displays page 1, the page after or the page before. */
  lemma PreparedMovesByOne<F>(h: History<F>, direction: string, filters: F)
    requires Window(h)
    ensures Prepared(h, direction, filters).Ok? <==>
              (direction == "first" ||
               (h.entries != [] && h.filters == Some(filters) &&
                ((direction == "previous" && h.Current().number > h.entries[0].number) ||
                 (direction == "next" && h.Current().nextCursor.Some?))))
    ensures Prepared(h, direction, filters).Ok? ==>
              var moved := Prepared(h, direction, filters).value;
              && moved.entries != [] && moved.InRange()
              && moved.Current().number == (if direction == "first" then 1
                                            else if direction == "next" then h.Current().number + 1
                                            else h.Current().number - 1)
  {
    PreparedKeepsWindow(h, direction, filters);
  }

  lemma RecordedKeepsWindow<F>(h: History<F>, next: Option<Cursor>)
    requires Window(h) && h.entries != []
    ensures Window(Recorded(h, next))
    ensures Recorded(h, next).Highest() == h.Highest()
  {
    var e := Recorded(h, next).entries;
    assert e[|e| - 1].number == h.entries[|h.entries| - 1].number;
  }

  /** The upstream: the next cursor answered for given filters and a requested cursor. */
  type Upstream<!F> = (F, Option<Cursor>) -> Option<Cursor>

  /** The cursor `n` hops into the upstream's chain that starts without a cursor. */
  function Hop<F>(upstream: Upstream<F>, filters: F, n: nat): Option<Cursor> {
    if n == 0 then None else upstream(filters, Hop(upstream, filters, n - 1))
  }

  /** Every retained page requests, and leads to, its own place in that chain. */
  ghost predicate OnChain<F>(h: History<F>, upstream: Upstream<F>) {
    h.entries != [] ==>
      && h.filters.Some?
      && Unbroken(upstream, h.filters.value, h.Highest())
      && forall i :: 0 <= i < |h.entries| ==>
           && h.entries[i].number >= 1
           && h.entries[i].requestCursor == Hop(upstream, h.filters.value, h.entries[i].number - 1)
           && h.entries[i].nextCursor == Hop(upstream, h.filters.value, h.entries[i].number)
  }

  /** The chain does not end before its page `n`. */
  ghost predicate Unbroken<F>(upstream: Upstream<F>, filters: F, n: nat) {
    n <= 1 || (Hop(upstream, filters, n - 1).Some? && Unbroken(upstream, filters, n - 1))
  }

  lemma {:induction false} UnbrokenBefore<F>(upstream: Upstream<F>, filters: F, m: nat, n: nat)
    requires m <= n && Unbroken(upstream, filters, n)
    ensures Unbroken(upstream, filters, m)
  {
    if m < n {
      UnbrokenBefore(upstream, filters, m, n - 1);
    }
  }

  /** As `OnChain`, but the page on display has not been answered yet. */
  ghost predicate AwaitingAnswer<F>(h: History<F>, upstream: Upstream<F>, filters: F) {
    && Unbroken(upstream, filters, h.Highest())
    && forall i :: 0 <= i < |h.entries| ==>
      && h.entries[i].number >= 1
      && h.entries[i].requestCursor == Hop(upstream, filters, h.entries[i].number - 1)
      && (i != h.position ==> h.entries[i].nextCursor == Hop(upstream, filters, h.entries[i].number))
  }

  lemma PreparedKeepsUnbroken<F>(h: History<F>, upstream: Upstream<F>, direction: string, filters: F)
    requires Window(h) && OnChain(h, upstream)
    requires Prepared(h, direction, filters).Ok?
    ensures Unbroken(upstream, filters, Prepared(h, direction, filters).value.Highest())
  {
    PreparedKeepsWindow(h, direction, filters);
  }

  lemma PreparedAwaitsAnswer<F>(h: History<F>, upstream: Upstream<F>, direction: string, filters: F)
    requires Window(h) && OnChain(h, upstream)
    requires Prepared(h, direction, filters).Ok?
    ensures AwaitingAnswer(Prepared(h, direction, filters).value, upstream, filters)
  {
    PreparedKeepsUnbroken(h, upstream, direction, filters);
    var moved := Prepared(h, direction, filters).value;
    assert Hop(upstream, filters, 0) == None;
    hide Hop, Unbroken, Window;
    if direction == "next" && h.position + 1 == |h.entries| {
      GrownAwaitsAnswer(h, upstream, filters);
    }
  }

  lemma GrownAwaitsAnswer<F>(h: History<F>, upstream: Upstream<F>, filters: F)
    requires OnChain(h, upstream) && h.entries != [] && h.filters == Some(filters) && h.position == |h.entries| - 1
    requires Prepared(h, "next", filters).Ok?
    ensures var moved := Prepared(h, "next", filters).value;
            forall i :: 0 <= i < |moved.entries| ==>
              && moved.entries[i].number >= 1
              && moved.entries[i].requestCursor == Hop(upstream, filters, moved.entries[i].number - 1)
              && (i != moved.position ==> moved.entries[i].nextCursor == Hop(upstream, filters, moved.entries[i].number))
  {
    hide Hop, Unbroken;
    var moved := Prepared(h, "next", filters).value;
    var grown := h.entries + [PageEntry(h.Current().number + 1, h.Current().nextCursor, None)];
    assert moved.entries == grown || moved.entries == grown[1..];
  }

  /** A move followed by that upstream's answer stays on the chain. */
  lemma MoveStaysOnChain<F>(h: History<F>, upstream: Upstream<F>, direction: string, filters: F)
    requires Window(h) && OnChain(h, upstream)
    requires Prepared(h, direction, filters).Ok?
    ensures var moved := Prepared(h, direction, filters).value;
            && Window(moved) && moved.entries != []
            && moved.Current().requestCursor == Hop(upstream, filters, moved.Current().number - 1)
            && OnChain(Recorded(moved, upstream(filters, moved.Current().requestCursor)), upstream)
  {
    PreparedKeepsWindow(h, direction, filters);
    PreparedAwaitsAnswer(h, upstream, direction, filters);
    var moved := Prepared(h, direction, filters).value;
    AnswerCompletesChain(moved, upstream, filters);
  }

  lemma AnswerCompletesChain<F>(h: History<F>, upstream: Upstream<F>, filters: F)
    requires h.entries != [] && h.InRange() && h.filters == Some(filters)
    requires AwaitingAnswer(h, upstream, filters)
    ensures OnChain(Recorded(h, upstream(filters, h.Current().requestCursor)), upstream)
  {
    var n := h.Current().number;
    assert Hop(upstream, filters, n) == upstream(filters, Hop(upstream, filters, n - 1));
  }

  // ------------------------------------------------------------------
  // Whole runs
  // ------------------------------------------------------------------

  datatype Answer = Answered(next: Option<Cursor>) | Failed

  datatype Visit<F> = Visit(direction: string, filters: F, answer: Answer)

  /** One paging action: a refused move or a failed read commits nothing. */
  function AfterVisit<F(==)>(h: History<F>, v: Visit<F>): (r: History<F>)
    requires Window(h)
    ensures Window(r)
  {
    PreparedKeepsWindow(h, v.direction, v.filters);
    match Prepared(h, v.direction, v.filters)
    case Err(_) => h
    case Ok(moved) =>
      match v.answer
      case Failed => h
      case Answered(next) => RecordedKeepsWindow(moved, next); Recorded(moved, next)
  }

  function RunVisits<F(==)>(visits: seq<Visit<F>>): (r: History<F>)
    ensures Window(r)
  {
    if visits == [] then Unloaded() else AfterVisit(RunVisits(visits[..|visits| - 1]), visits[|visits| - 1])
  }

  /** The highest page number displayed since the last successful "first". */
  function HighestSinceFirst<F(==)>(visits: seq<Visit<F>>): nat {
    if visits == [] then 0 else
      var before := RunVisits(visits[..|visits| - 1]);
      var seen := HighestSinceFirst(visits[..|visits| - 1]);
      var v := visits[|visits| - 1];
      if Prepared(before, v.direction, v.filters).Err? || v.answer.Failed? then seen
      else
        PreparedKeepsWindow(before, v.direction, v.filters);
        var shown := RunVisits(visits).Current().number;
        if v.direction == "first" || shown > seen then shown else seen
  }

  /** Every visit's answer, when there is one, is the fixed upstream's answer to what was requested. */
  ghost predicate AnsweredBy<F>(visits: seq<Visit<F>>, upstream: Upstream<F>) {
    forall i :: 0 <= i < |visits| ==>
      var moved := Prepared(RunVisits(visits[..i]), visits[i].direction, visits[i].filters);
      moved.Ok? && visits[i].answer.Answered? ==>
        && moved.value.entries != [] && moved.value.InRange()
        && visits[i].answer.next == upstream(visits[i].filters, moved.value.Current().requestCursor)
  }

  /** Against any upstream whatever: the history is the window of the last 64 pages up to the highest. */
  lemma {:induction false} RunKeepsWindow<F>(visits: seq<Visit<F>>)
    ensures var h := RunVisits(visits); var m := HighestSinceFirst(visits);
            && Window(h)
            && h.Highest() == m
            && |h.entries| == (if m <= 64 then m else 64)
  {
    if visits != [] {
      var before, v := visits[..|visits| - 1], visits[|visits| - 1];
      RunKeepsWindow(before);
      PreparedKeepsWindow(RunVisits(before), v.direction, v.filters);
      if Prepared(RunVisits(before), v.direction, v.filters).Ok? && v.answer.Answered? {
        RecordedKeepsWindow(Prepared(RunVisits(before), v.direction, v.filters).value, v.answer.next);
      }
    }
  }

  /** Against a fixed upstream: page n always requests the (n-1)-fold iterate. */
  lemma {:induction false} RunFollowsChain<F>(visits: seq<Visit<F>>, upstream: Upstream<F>)
    requires AnsweredBy(visits, upstream)
    ensures OnChain(RunVisits(visits), upstream)
  {
    if visits != [] {
      var before, v := visits[..|visits| - 1], visits[|visits| - 1];
      forall i | 0 <= i < |before|
        ensures before[..i] == visits[..i]
      {}
      RunFollowsChain(before, upstream);
      var h := RunVisits(before);
      if Prepared(h, v.direction, v.filters).Ok? && v.answer.Answered? {
        MoveStaysOnChain(h, upstream, v.direction, v.filters);
      }
    }
  }
}
