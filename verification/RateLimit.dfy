/** The per-IP rate limiter as interleaved atomic steps (dynamicproxy/ratelimit.go). */
module RateLimit {
  import opened GoTypes
  import MapSums

  type Ip = string

  /** A counter object. `born` is the window of its IP in which it was stored. */
  datatype Cell = Cell(ip: Ip, born: nat, count: int)

  /** Where a request stands between entering `handleRateLimit` and leaving it. `ticket` is the
      value its own increment produced, which the code computes and ignores. */
  datatype Phase =
    | Arrived
    | Loaded(cell: nat)
    | Added(cell: nat, ticket: int)
    | Looked(cell: nat, ticket: int, found: nat)
    | Decided(cell: nat, ticket: int, admitted: bool, window: nat)

  /** `start` is the window in which the request arrived; the limit is its endpoint's. */
  datatype Request = Request(ip: Ip, limit: int, start: nat, phase: Phase)

  datatype State = State(table: map<Ip, nat>, cells: seq<Cell>, windows: map<Ip, nat>, requests: seq<Request>) {
    /** The number of clears the IP has seen. */
    function Window(ip: Ip): nat {
      if ip in windows then windows[ip] else 0
    }

    function With(r: nat, phase: Phase): State
      requires r < |requests|
    {
      this.(requests := requests[r := requests[r].(phase := phase)])
    }
  }

  const EMPTY := State(map[], [], map[], [])

  // ---------------------------------------------------------------- steps

  ghost predicate Arrive(s: State, ip: Ip, limit: int, s': State) {
    s' == s.(requests := s.requests + [Request(ip, limit, s.Window(ip), Arrived)])
  }

  /** `table.LoadOrStore(ip, new(int64))` */
  ghost predicate LoadOrStore(s: State, r: nat, s': State) {
    && r < |s.requests| && s.requests[r].phase.Arrived?
    && var ip := s.requests[r].ip;
       if ip in s.table then s' == s.With(r, Loaded(s.table[ip]))
       else s' == s.With(r, Loaded(|s.cells|))
                   .(table := s.table[ip := |s.cells|], cells := s.cells + [Cell(ip, s.Window(ip), 0)])
  }

  /** `atomic.AddInt64(v, 1)` */
  ghost predicate Add(s: State, r: nat, s': State) {
    && r < |s.requests| && s.requests[r].phase.Loaded?
    && var c := s.requests[r].phase.cell;
       && c < |s.cells|
       && var n := s.cells[c].count + 1;
          s' == s.With(r, Added(c, n)).(cells := s.cells[c := s.cells[c].(count := n)])
  }

  /** `table.Load(ip)` in `Exceeded`: a missing entry admits at once. */
  ghost predicate Look(s: State, r: nat, s': State) {
    && r < |s.requests| && s.requests[r].phase.Added?
    && var q := s.requests[r];
       if q.ip in s.table then s' == s.With(r, Looked(q.phase.cell, q.phase.ticket, s.table[q.ip]))
       else s' == s.With(r, Decided(q.phase.cell, q.phase.ticket, true, s.Window(q.ip)))
  }

  /** `atomic.LoadInt64(v) >= limit` */
  ghost predicate Read(s: State, r: nat, s': State) {
    && r < |s.requests| && s.requests[r].phase.Looked?
    && var q := s.requests[r];
       && q.phase.found < |s.cells|
       && s' == s.With(r, Decided(q.phase.cell, q.phase.ticket, !(s.cells[q.phase.found].count >= q.limit),
                                   s.Window(q.ip)))
  }

  /** The ticker reaches one IP: `table.Delete(ip)`. */
  ghost predicate Clear(s: State, ip: Ip, s': State) {
    s' == s.(table := s.table - {ip}, windows := s.windows[ip := s.Window(ip) + 1])
  }

  ghost predicate Step(s: State, s': State) {
    || (exists ip, limit :: Arrive(s, ip, limit, s'))
    || (exists ip :: Clear(s, ip, s'))
    || (exists r :: LoadOrStore(s, r, s'))
    || (exists r :: Add(s, r, s'))
    || (exists r :: Look(s, r, s'))
    || (exists r :: Read(s, r, s'))
  }

  ghost predicate Run(ss: seq<State>) {
    && ss != [] && ss[0] == EMPTY
    && forall i :: 0 <= i < |ss| - 1 ==> Step(ss[i], ss[i + 1])
  }

  // ---------------------------------------------------------------- invariant

  ghost predicate CellOk(s: State, c: nat)
    requires c < |s.cells|
  {
    var cell := s.cells[c];
    && cell.count >= 0
    && cell.born <= s.Window(cell.ip)
    && (cell.born == s.Window(cell.ip) ==> cell.ip in s.table && s.table[cell.ip] == c)
  }

  ghost predicate TableOk(s: State, ip: Ip)
    requires ip in s.table
  {
    s.table[ip] < |s.cells| && s.cells[s.table[ip]].ip == ip && s.cells[s.table[ip]].born == s.Window(ip)
  }

  predicate HasCell(p: Phase) { !p.Arrived? }

  predicate HasTicket(p: Phase) { p.Added? || p.Looked? || p.Decided? }

  ghost predicate RequestOk(s: State, r: nat)
    requires r < |s.requests|
  {
    var q := s.requests[r];
    && q.start <= s.Window(q.ip)
    && (HasCell(q.phase) ==>
          && q.phase.cell < |s.cells|
          && s.cells[q.phase.cell].ip == q.ip
          && q.start <= s.cells[q.phase.cell].born)
    && (HasTicket(q.phase) ==> 1 <= q.phase.ticket <= s.cells[q.phase.cell].count)
    && (q.phase.Looked? ==>
          && q.phase.found < |s.cells|
          && (q.start == s.Window(q.ip) ==> q.phase.found == q.phase.cell))
    && (q.phase.Decided? ==>
          && q.start <= q.phase.window <= s.Window(q.ip)
          && (q.start == q.phase.window ==>
                && s.cells[q.phase.cell].born == q.start
                && (q.phase.admitted ==> q.phase.ticket < q.limit)
                && (!q.phase.admitted ==> q.limit <= s.cells[q.phase.cell].count)))
  }

  ghost predicate DistinctTickets(s: State, i: nat, j: nat)
    requires i < |s.requests| && j < |s.requests|
  {
    var p, q := s.requests[i].phase, s.requests[j].phase;
    HasTicket(p) && HasTicket(q) && p.cell == q.cell ==> p.ticket != q.ticket
  }

  ghost predicate DistinctBirths(s: State, c: nat, d: nat)
    requires c < |s.cells| && d < |s.cells|
  {
    s.cells[c].ip == s.cells[d].ip ==> s.cells[c].born != s.cells[d].born
  }

  ghost predicate Invariant(s: State) {
    && (forall ip {:trigger TableOk(s, ip)} :: ip in s.table ==> TableOk(s, ip))
    && (forall c {:trigger CellOk(s, c)} :: 0 <= c < |s.cells| ==> CellOk(s, c))
    && (forall r {:trigger RequestOk(s, r)} :: 0 <= r < |s.requests| ==> RequestOk(s, r))
    && (forall i, j {:trigger DistinctTickets(s, i, j)} :: 0 <= i < j < |s.requests| ==> DistinctTickets(s, i, j))
    && (forall c, d {:trigger DistinctBirths(s, c, d)} :: 0 <= c < d < |s.cells| ==> DistinctBirths(s, c, d))
  }

  lemma ArriveKeeps(s: State, ip: Ip, limit: int, s': State)
    requires Invariant(s) && Arrive(s, ip, limit, s')
    ensures Invariant(s')
  {
    forall a | a in s'.table ensures TableOk(s', a) { assert TableOk(s, a); }
    forall c | 0 <= c < |s'.cells| ensures CellOk(s', c) { assert CellOk(s, c); }
    forall r | 0 <= r < |s'.requests| ensures RequestOk(s', r) {
      if r < |s.requests| { assert RequestOk(s, r); }
    }
    forall i, j | 0 <= i < j < |s'.requests| ensures DistinctTickets(s', i, j) {
      if j < |s.requests| { assert DistinctTickets(s, i, j); }
    }
    forall c, d | 0 <= c < d < |s'.cells| ensures DistinctBirths(s', c, d) { assert DistinctBirths(s, c, d); }
  }

  lemma ClearKeeps(s: State, ip: Ip, s': State)
    requires Invariant(s) && Clear(s, ip, s')
    ensures Invariant(s')
  {
    forall a | a in s'.table ensures TableOk(s', a) { assert TableOk(s, a); }
    forall c | 0 <= c < |s'.cells| ensures CellOk(s', c) { assert CellOk(s, c); }
    forall r | 0 <= r < |s'.requests| ensures RequestOk(s', r) { assert RequestOk(s, r); }
    forall i, j | 0 <= i < j < |s'.requests| ensures DistinctTickets(s', i, j) { assert DistinctTickets(s, i, j); }
    forall c, d | 0 <= c < d < |s'.cells| ensures DistinctBirths(s', c, d) { assert DistinctBirths(s, c, d); }
  }

  lemma LoadOrStoreKeeps(s: State, r: nat, s': State)
    requires Invariant(s) && LoadOrStore(s, r, s')
    ensures Invariant(s')
  {
    var ip := s.requests[r].ip;
    if ip in s.table { assert TableOk(s, ip); }
    forall a | a in s'.table ensures TableOk(s', a) {
      if a in s.table { assert TableOk(s, a); }
    }
    forall c | 0 <= c < |s'.cells| ensures CellOk(s', c) {
      if c < |s.cells| { assert CellOk(s, c); }
    }
    forall q | 0 <= q < |s'.requests| ensures RequestOk(s', q) { assert RequestOk(s, q); }
    forall i, j | 0 <= i < j < |s'.requests| ensures DistinctTickets(s', i, j) { assert DistinctTickets(s, i, j); }
    forall c, d | 0 <= c < d < |s'.cells| ensures DistinctBirths(s', c, d) {
      assert CellOk(s, c);
      if d < |s.cells| { assert DistinctBirths(s, c, d); }
    }
  }

  lemma AddKeeps(s: State, r: nat, s': State)
    requires Invariant(s) && Add(s, r, s')
    ensures Invariant(s')
  {
    assert RequestOk(s, r);
    forall a | a in s'.table ensures TableOk(s', a) { assert TableOk(s, a); }
    forall c | 0 <= c < |s'.cells| ensures CellOk(s', c) { assert CellOk(s, c); }
    forall q | 0 <= q < |s'.requests| ensures RequestOk(s', q) {
      assert RequestOk(s, q) && CellOk(s, s.requests[r].phase.cell);
    }
    forall i, j | 0 <= i < j < |s'.requests| ensures DistinctTickets(s', i, j) {
      assert DistinctTickets(s, i, j) && RequestOk(s, i) && RequestOk(s, j);
    }
    forall c, d | 0 <= c < d < |s'.cells| ensures DistinctBirths(s', c, d) { assert DistinctBirths(s, c, d); }
  }

  lemma LookKeeps(s: State, r: nat, s': State)
    requires Invariant(s) && Look(s, r, s')
    ensures Invariant(s')
  {
    assert RequestOk(s, r) && CellOk(s, s.requests[r].phase.cell);
    if s.requests[r].ip in s.table { assert TableOk(s, s.requests[r].ip); }
    forall a | a in s'.table ensures TableOk(s', a) { assert TableOk(s, a); }
    forall c | 0 <= c < |s'.cells| ensures CellOk(s', c) { assert CellOk(s, c); }
    forall q | 0 <= q < |s'.requests| ensures RequestOk(s', q) { assert RequestOk(s, q); }
    forall i, j | 0 <= i < j < |s'.requests| ensures DistinctTickets(s', i, j) { assert DistinctTickets(s, i, j); }
    forall c, d | 0 <= c < d < |s'.cells| ensures DistinctBirths(s', c, d) { assert DistinctBirths(s, c, d); }
  }

  lemma ReadKeeps(s: State, r: nat, s': State)
    requires Invariant(s) && Read(s, r, s')
    ensures Invariant(s')
  {
    assert RequestOk(s, r) && CellOk(s, s.requests[r].phase.cell);
    forall a | a in s'.table ensures TableOk(s', a) { assert TableOk(s, a); }
    forall c | 0 <= c < |s'.cells| ensures CellOk(s', c) { assert CellOk(s, c); }
    forall q | 0 <= q < |s'.requests| ensures RequestOk(s', q) { assert RequestOk(s, q); }
    forall i, j | 0 <= i < j < |s'.requests| ensures DistinctTickets(s', i, j) { assert DistinctTickets(s, i, j); }
    forall c, d | 0 <= c < d < |s'.cells| ensures DistinctBirths(s', c, d) { assert DistinctBirths(s, c, d); }
  }

  lemma {:induction false} RunKeeps(ss: seq<State>, n: nat)
    requires Run(ss) && n < |ss|
    ensures Invariant(ss[n])
  {
    if n > 0 {
      RunKeeps(ss, n - 1);
      var s, s' := ss[n - 1], ss[n];
      assert Step(s, s');
      if ip, limit :| Arrive(s, ip, limit, s') { ArriveKeeps(s, ip, limit, s'); }
      if ip :| Clear(s, ip, s') { ClearKeeps(s, ip, s'); }
      if r :| LoadOrStore(s, r, s') { LoadOrStoreKeeps(s, r, s'); }
      if r :| Add(s, r, s') { AddKeeps(s, r, s'); }
      if r :| Look(s, r, s') { LookKeeps(s, r, s'); }
      if r :| Read(s, r, s') { ReadKeeps(s, r, s'); }
    }
  }

  // ---------------------------------------------------------------- counters count

  /** The requests that have incremented cell `c`. */
  ghost function Holders(s: State, c: nat): set<nat> {
    set r | 0 <= r < |s.requests| && HasTicket(s.requests[r].phase) && s.requests[r].phase.cell == c
  }

  ghost predicate CountOk(s: State, c: nat)
    requires c < |s.cells|
  {
    s.cells[c].count == |Holders(s, c)|
  }

  /** A step that gives no request a new ticket leaves the holders as they are. */
  lemma SameHolders(s: State, s': State, c: nat)
    requires |s.requests| <= |s'.requests|
    requires forall r :: 0 <= r < |s.requests| ==>
               && (HasTicket(s'.requests[r].phase) <==> HasTicket(s.requests[r].phase))
               && (HasTicket(s.requests[r].phase) ==> s'.requests[r].phase.cell == s.requests[r].phase.cell)
    requires forall r :: |s.requests| <= r < |s'.requests| ==> !HasTicket(s'.requests[r].phase)
    ensures Holders(s', c) == Holders(s, c)
  {
  }

  lemma AddHolders(s: State, r: nat, s': State, c: nat)
    requires Add(s, r, s')
    ensures Holders(s', c) == if c == s.requests[r].phase.cell then Holders(s, c) + {r} else Holders(s, c)
    ensures r !in Holders(s, c)
  {
  }

  ghost predicate CountsOk(s: State) {
    forall c {:trigger CountOk(s, c)} :: 0 <= c < |s.cells| ==> CountOk(s, c)
  }

  lemma NoTicketsOnFreshCell(s: State)
    requires Invariant(s)
    ensures Holders(s, |s.cells|) == {}
  {
    forall r | 0 <= r < |s.requests| && HasTicket(s.requests[r].phase)
      ensures s.requests[r].phase.cell < |s.cells|
    {
      assert RequestOk(s, r);
    }
  }

  lemma AddKeepsCounts(s: State, r: nat, s': State)
    requires CountsOk(s) && Add(s, r, s')
    ensures CountsOk(s')
  {
    forall c | 0 <= c < |s'.cells| ensures CountOk(s', c) {
      assert CountOk(s, c);
      AddHolders(s, r, s', c);
    }
  }

  lemma OtherKeepsCounts(s: State, s': State)
    requires Invariant(s) && CountsOk(s)
    requires s'.cells == s.cells || exists ip, born :: s'.cells == s.cells + [Cell(ip, born, 0)]
    requires |s.requests| <= |s'.requests|
    requires forall r :: 0 <= r < |s.requests| ==>
               && (HasTicket(s'.requests[r].phase) <==> HasTicket(s.requests[r].phase))
               && (HasTicket(s.requests[r].phase) ==> s'.requests[r].phase.cell == s.requests[r].phase.cell)
    requires forall r :: |s.requests| <= r < |s'.requests| ==> !HasTicket(s'.requests[r].phase)
    ensures CountsOk(s')
  {
    NoTicketsOnFreshCell(s);
    forall c | 0 <= c < |s'.cells| ensures CountOk(s', c) {
      assert c < |s.cells| ==> CountOk(s, c);
      SameHolders(s, s', c);
    }
  }

  lemma StepKeepsCounts(s: State, s': State)
    requires Invariant(s) && Step(s, s') && CountsOk(s)
    ensures CountsOk(s')
  {
    if r :| Add(s, r, s') {
      AddKeepsCounts(s, r, s');
    } else {
      OtherKeepsCounts(s, s');
    }
  }

  lemma {:induction false} RunKeepsCounts(ss: seq<State>, n: nat)
    requires Run(ss) && n < |ss|
    ensures CountsOk(ss[n])
  {
    if n > 0 {
      RunKeepsCounts(ss, n - 1);
      RunKeeps(ss, n - 1);
      assert Step(ss[n - 1], ss[n]);
      StepKeepsCounts(ss[n - 1], ss[n]);
    }
  }

  // ---------------------------------------------------------------- what a window admits

  /** Requests of `ip` with a limit of at most `limit` that were admitted in window `w`. */
  ghost function AdmittedIn(s: State, ip: Ip, w: nat, limit: int): set<nat> {
    set r | 0 <= r < |s.requests| && s.requests[r].ip == ip && s.requests[r].limit <= limit
            && s.requests[r].phase.Decided? && s.requests[r].phase.admitted && s.requests[r].phase.window == w
  }

  /** Requests of `ip` that had arrived, and were not decided yet, when window `w` was opened. */
  ghost function InFlightAt(s: State, ip: Ip, w: nat): set<nat> {
    set r | 0 <= r < |s.requests| && s.requests[r].ip == ip && s.requests[r].start < w
            && (s.requests[r].phase.Decided? ==> s.requests[r].phase.window >= w)
  }

  function Ticket(s: State, r: nat): int {
    if r < |s.requests| && HasTicket(s.requests[r].phase) then s.requests[r].phase.ticket else 0
  }

  lemma TicketsBound(s: State, rs: set<nat>, n: nat)
    requires forall r :: r in rs ==> 1 <= Ticket(s, r) <= n
    requires forall i, j :: i in rs && j in rs && i != j ==> Ticket(s, i) != Ticket(s, j)
    ensures |rs| <= n
  {
    if r :| r in rs && Ticket(s, r) == n {
      TicketsBound(s, rs - {r}, n - 1);
    } else if n > 0 {
      TicketsBound(s, rs, n - 1);
    } else if r :| r in rs {
      assert false;
    }
  }

  /** Requests that live inside one window all use the one counter born in it. */
  lemma OneCellPerWindow(s: State, i: nat, j: nat, ip: Ip, w: nat, limit: int)
    requires Invariant(s)
    requires i in AdmittedIn(s, ip, w, limit) && j in AdmittedIn(s, ip, w, limit)
    requires s.requests[i].start == w && s.requests[j].start == w && i != j
    ensures Ticket(s, i) != Ticket(s, j)
  {
    assert RequestOk(s, i) && RequestOk(s, j);
    var c, d := s.requests[i].phase.cell, s.requests[j].phase.cell;
    assert c < d ==> DistinctBirths(s, c, d);
    assert d < c ==> DistinctBirths(s, d, c);
    if i < j { assert DistinctTickets(s, i, j); } else { assert DistinctTickets(s, j, i); }
  }

  lemma InsideIsBounded(s: State, ip: Ip, w: nat, limit: int, inside: set<nat>)
    requires Invariant(s)
    requires inside == set r | r in AdmittedIn(s, ip, w, limit) && s.requests[r].start == w
    ensures |inside| <= Max(0, limit - 1)
  {
    forall r | r in inside ensures 1 <= Ticket(s, r) <= limit - 1 {
      assert RequestOk(s, r);
    }
    forall i, j | i in inside && j in inside && i != j ensures Ticket(s, i) != Ticket(s, j) {
      OneCellPerWindow(s, i, j, ip, w, limit);
    }
    TicketsBound(s, inside, Max(0, limit - 1));
  }

  lemma CarriedWereInFlight(s: State, ip: Ip, w: nat, limit: int, carried: set<nat>)
    requires Invariant(s)
    requires carried == set r | r in AdmittedIn(s, ip, w, limit) && s.requests[r].start != w
    ensures carried <= InFlightAt(s, ip, w)
  {
    forall r | r in carried ensures s.requests[r].start < w {
      assert RequestOk(s, r);
    }
  }

  /** In every state of every interleaving: between two clears an IP is admitted at most
      `limit - 1` times, plus once for each request already in flight at the opening clear. */
  lemma WindowAdmissions(ss: seq<State>, n: nat, ip: Ip, w: nat, limit: int)
    requires Run(ss) && n < |ss|
    ensures |AdmittedIn(ss[n], ip, w, limit)| <= Max(0, limit - 1) + |InFlightAt(ss[n], ip, w)|
  {
    RunKeeps(ss, n);
    var s := ss[n];
    var inside := set r | r in AdmittedIn(s, ip, w, limit) && s.requests[r].start == w;
    var carried := set r | r in AdmittedIn(s, ip, w, limit) && s.requests[r].start != w;
    InsideIsBounded(s, ip, w, limit, inside);
    CarriedWereInFlight(s, ip, w, limit, carried);
    MapSums.SubsetSize(carried, InFlightAt(s, ip, w));
    assert AdmittedIn(s, ip, w, limit) == inside + carried;
  }

  /** Nobody is turned away early: a request that arrives and is rejected within one window has
      at least `limit` requests, its own among them, counted in that window's counter. */
  lemma RejectedOnlyAtLimit(ss: seq<State>, n: nat, r: nat)
    requires Run(ss) && n < |ss| && r < |ss[n].requests|
    requires var q := ss[n].requests[r]; q.phase.Decided? && !q.phase.admitted && q.phase.window == q.start
    ensures var q := ss[n].requests[r];
            && r in Holders(ss[n], q.phase.cell)
            && q.limit <= |Holders(ss[n], q.phase.cell)|
  {
    RunKeeps(ss, n);
    RunKeepsCounts(ss, n);
    assert RequestOk(ss[n], r);
    assert CountOk(ss[n], ss[n].requests[r].phase.cell);
  }

  // ---------------------------------------------------------------- what a rejection has seen

  /** A counter of the request's IP, opened since the request arrived. */
  ghost predicate Seen(s: State, q: Request, c: nat) {
    c < |s.cells| && s.cells[c].ip == q.ip && q.start <= s.cells[c].born
  }

  /** Opened before the request was decided, and at its limit. */
  ghost predicate Full(s: State, q: Request, c: nat) {
    q.phase.Decided? && Seen(s, q, c) && s.cells[c].born <= q.phase.window && q.limit <= s.cells[c].count
  }

  ghost predicate RefusalOk(s: State, q: Request) {
    && (q.phase.Looked? ==> Seen(s, q, q.phase.found))
    && (q.phase.Decided? && !q.phase.admitted ==> exists c: nat :: Full(s, q, c))
  }

  /** Counters are never taken away, and never count less. */
  ghost predicate CellsGrow(s: State, s': State) {
    && |s.cells| <= |s'.cells|
    && forall c :: 0 <= c < |s.cells| ==>
         s'.cells[c] == s.cells[c].(count := s'.cells[c].count) && s.cells[c].count <= s'.cells[c].count
  }

  lemma StepGrows(s: State, s': State)
    requires Step(s, s')
    ensures CellsGrow(s, s')
  {
  }

  lemma GrowthKeepsRefusal(s: State, s': State, q: Request)
    requires CellsGrow(s, s') && RefusalOk(s, q)
    ensures RefusalOk(s', q)
  {
    if q.phase.Decided? && !q.phase.admitted {
      var c: nat :| Full(s, q, c);
      assert Full(s', q, c);
    }
  }

  /** The request that a step moves: it finds a counter of the table, or reads the one it found. */
  lemma MovedRefusal(s: State, r: nat, s': State)
    requires Invariant(s) && r < |s.requests| && RefusalOk(s, s.requests[r])
    requires LoadOrStore(s, r, s') || Add(s, r, s') || Look(s, r, s') || Read(s, r, s')
    ensures RefusalOk(s', s'.requests[r])
  {
    var q := s.requests[r];
    assert RequestOk(s, r);
    if q.ip in s.table {
      assert TableOk(s, q.ip);
    }
    if Read(s, r, s') {
      assert CellOk(s, q.phase.found);
      assert !s'.requests[r].phase.admitted ==> Full(s', s'.requests[r], q.phase.found);
    }
  }

  lemma StepKeepsRefusals(s: State, s': State, i: nat)
    requires Invariant(s) && Step(s, s') && i < |s'.requests|
    requires i < |s.requests| ==> RefusalOk(s, s.requests[i])
    ensures RefusalOk(s', s'.requests[i])
  {
    StepGrows(s, s');
    if i < |s.requests| && s'.requests[i] == s.requests[i] {
      GrowthKeepsRefusal(s, s', s.requests[i]);
    } else if i < |s.requests| {
      assert LoadOrStore(s, i, s') || Add(s, i, s') || Look(s, i, s') || Read(s, i, s');
      MovedRefusal(s, i, s');
    }
  }

  lemma {:induction false} RunKeepsRefusals(ss: seq<State>, n: nat, i: nat)
    requires Run(ss) && n < |ss| && i < |ss[n].requests|
    ensures RefusalOk(ss[n], ss[n].requests[i])
  {
    if n > 0 {
      RunKeeps(ss, n - 1);
      assert Step(ss[n - 1], ss[n]);
      if i < |ss[n - 1].requests| {
        RunKeepsRefusals(ss, n - 1, i);
      }
      StepKeepsRefusals(ss[n - 1], ss[n], i);
    }
  }

  /** No request is ever turned away but by a counter of its IP that was opened between its arrival
      and its decision and has counted `limit` requests, whatever clears came in between. */
  lemma RejectedOnlyByFullCounter(ss: seq<State>, n: nat, r: nat) returns (c: nat)
    requires Run(ss) && n < |ss| && r < |ss[n].requests|
    requires ss[n].requests[r].phase.Decided? && !ss[n].requests[r].phase.admitted
    ensures var s, q := ss[n], ss[n].requests[r];
            && c < |s.cells| && s.cells[c].ip == q.ip && q.start <= s.cells[c].born <= q.phase.window
            && q.limit <= |Holders(s, c)|
  {
    RunKeepsRefusals(ss, n, r);
    RunKeepsCounts(ss, n);
    c :| Full(ss[n], ss[n].requests[r], c);
    assert CountOk(ss[n], c);
  }

  // ---------------------------------------------------------------- one request after the other

  /** What `GetCount` reads. */
  function CountOf(s: State, ip: Ip): int {
    if ip in s.table && s.table[ip] < |s.cells| then s.cells[s.table[ip]].count else 0
  }

  /** A request that runs from arrival to decision with nothing in between. */
  ghost predicate Alone(s: State, ip: Ip, limit: int, s': State, admitted: bool) {
    exists a, b, c, d :: AloneVia(s, ip, limit, a, b, c, d, s', admitted)
  }

  ghost predicate AloneVia(s: State, ip: Ip, limit: int, a: State, b: State, c: State, d: State, s': State,
                           admitted: bool) {
    var r := |s.requests|;
    && Arrive(s, ip, limit, a) && LoadOrStore(a, r, b) && Add(b, r, c)
    && Look(c, r, d) && (if d.requests[r].phase.Looked? then Read(d, r, s') else s' == d)
    && s'.requests[r].phase.Decided? && admitted == s'.requests[r].phase.admitted
  }

  lemma AloneKeeps(s: State, ip: Ip, limit: int, a: State, b: State, c: State, d: State, s': State, admitted: bool)
    requires Invariant(s) && AloneVia(s, ip, limit, a, b, c, d, s', admitted)
    ensures Invariant(a) && Invariant(b) && Invariant(c) && Invariant(d) && Invariant(s')
  {
    var r := |s.requests|;
    ArriveKeeps(s, ip, limit, a);
    LoadOrStoreKeeps(a, r, b);
    AddKeeps(b, r, c);
    LookKeeps(c, r, d);
    if d.requests[r].phase.Looked? {
      ReadKeeps(d, r, s');
    }
  }

  lemma AloneCounts(s: State, ip: Ip, limit: int, a: State, b: State, c: State, d: State, s': State, admitted: bool)
    requires AloneVia(s, ip, limit, a, b, c, d, s', admitted) && (ip in s.table ==> s.table[ip] < |s.cells|)
    ensures CountOf(s', ip) == CountOf(s, ip) + 1
    ensures admitted <==> CountOf(s, ip) + 1 < limit
  {
  }

  lemma AloneDecides(s: State, ip: Ip, limit: int, s': State, admitted: bool)
    requires Invariant(s) && Alone(s, ip, limit, s', admitted)
    ensures Invariant(s')
    ensures CountOf(s', ip) == CountOf(s, ip) + 1
    ensures admitted <==> CountOf(s, ip) + 1 < limit
  {
    var a, b, c, d :| AloneVia(s, ip, limit, a, b, c, d, s', admitted);
    assert ip in s.table ==> TableOk(s, ip);
    AloneKeeps(s, ip, limit, a, b, c, d, s', admitted);
    AloneCounts(s, ip, limit, a, b, c, d, s', admitted);
  }

  function Admissions(decisions: seq<bool>, n: nat): nat
    requires n <= |decisions|
  {
    if n == 0 then 0 else Admissions(decisions, n - 1) + if decisions[n - 1] then 1 else 0
  }

  /** `n` requests of one IP, one after the other. */
  ghost predicate Serial(ss: seq<State>, ip: Ip, limit: int, decisions: seq<bool>) {
    && |ss| == |decisions| + 1
    && forall i :: 0 <= i < |decisions| ==> Alone(ss[i], ip, limit, ss[i + 1], decisions[i])
  }

  lemma {:induction false} SerialCounts(ss: seq<State>, ip: Ip, limit: int, decisions: seq<bool>, n: nat)
    requires Serial(ss, ip, limit, decisions) && n <= |decisions|
    requires Invariant(ss[0]) && CountOf(ss[0], ip) == 0
    ensures Invariant(ss[n]) && CountOf(ss[n], ip) == n
  {
    if n > 0 {
      SerialCounts(ss, ip, limit, decisions, n - 1);
      AloneDecides(ss[n - 1], ip, limit, ss[n], decisions[n - 1]);
    }
  }

  lemma {:induction false} CountedAdmissions(decisions: seq<bool>, limit: int, n: nat)
    requires n <= |decisions| && forall i :: 0 <= i < n ==> (decisions[i] <==> i + 1 < limit)
    ensures Admissions(decisions, n) == Min(n, Max(0, limit - 1))
  {
    if n > 0 {
      CountedAdmissions(decisions, limit, n - 1);
    }
  }

  /** One after the other, exactly `min(n, limit - 1)` of `n` requests in a fresh window get
      through (none if the limit is not positive): one less than the configured number. */
  lemma SequentialAdmissions(ss: seq<State>, ip: Ip, limit: int, decisions: seq<bool>)
    requires Serial(ss, ip, limit, decisions)
    requires Invariant(ss[0]) && CountOf(ss[0], ip) == 0
    ensures Admissions(decisions, |decisions|) == Min(|decisions|, Max(0, limit - 1))
  {
    forall i | 0 <= i < |decisions| ensures decisions[i] <==> i + 1 < limit {
      SerialCounts(ss, ip, limit, decisions, i);
      AloneDecides(ss[i], ip, limit, ss[i + 1], decisions[i]);
    }
    CountedAdmissions(decisions, limit, |decisions|);
  }

  // ---------------------------------------------------------------- the table, one call at a time

  datatype Peer = NoPort | Peer(ip: Ip)

  class RequestCountPerIpTable {
    var table: map<Ip, int>

    function GetCount(ip: Ip): int
      reads this
    {
      if ip in table then table[ip] else 0
    }

    method Increment(ip: Ip)
      modifies this
      ensures ip in table && GetCount(ip) == old(GetCount(ip)) + 1
      ensures forall other :: other != ip ==> (other in table <==> other in old(table))
                                              && GetCount(other) == old(GetCount(other))
    {
      if ip !in table {
        table := table[ip := 0];
      }
      table := table[ip := table[ip] + 1];
    }

    method Exceeded(ip: Ip, limit: int) returns (exceeded: bool)
      ensures exceeded <==> ip in table && GetCount(ip) >= limit
    {
      if ip !in table {
        return false;
      }
      var count := table[ip];
      exceeded := count >= limit;
    }

    method Clear()
      modifies this
      ensures table == map[]
    {
      while table != map[]
        decreases |table|
      {
        var ip :| ip in table;
        assert (table - {ip}).Keys == table.Keys - {ip};
        table := table - {ip};
      }
    }

    /** `handleRateLimit` after the client address was chosen; an address without a port is let
        through uncounted. The n-th request of an IP since the last clear gets in iff `n < limit`,
        the rule that `AloneDecides` finds for the interleaved steps. */
    method HandleRateLimit(client: Peer, limit: int) returns (admitted: bool)
      modifies this
      ensures client.NoPort? ==> admitted && table == old(table)
      ensures client.Peer? ==> GetCount(client.ip) == old(GetCount(client.ip)) + 1
                               && (admitted <==> GetCount(client.ip) < limit)
                               && forall other :: other != client.ip ==> GetCount(other) == old(GetCount(other))
    {
      if client.NoPort? {
        return true;
      }
      Increment(client.ip);
      var exceeded := Exceeded(client.ip, limit);
      admitted := !exceeded;
    }
  }
}
