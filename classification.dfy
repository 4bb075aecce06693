/**
 * The paginated classification table (scripts/src/views/6_imprimirTabelaClassificacao.c):
 * for every team of the team repository a copy of the statistics context is added to a list
 * (the global `gCalcContext`), the list is sorted by points, descending, and shown five
 * records a page until the user quits, when the records and the list nodes are freed.
 */
module Classification {
  import opened Wrappers
  import opened Types
  import opened CStrings
  import opened LinkedLists
  import opened TimeModel
  import opened PartidaModel
  import opened TimeRepo
  import opened PartidaRepo
  import opened TeamStats

  /** `porPagina`: the records one page shows. */
  const POR_PAGINA: int := 5

  // ------------------------------------------------------------------
  // The records
  // ------------------------------------------------------------------

  /**
   * ctxcp: a record with every field of the context, its name copied by strcpy into memory
   * whose bytes after the terminator are taken to be NUL. (The context reaching it always holds
   * a terminated name; an unterminated one would be copied as its eleven characters.)
   */
  function CtxCp(g: CalcContext): (r: CalcContext)
    ensures r.id == g.id && r.vitorias == g.vitorias && r.empates == g.empates && r.derrotas == g.derrotas
    ensures r.gm == g.gm && r.gs == g.gs
    ensures StrEq(r.nome, g.nome) && (NUL in g.nome ==> NUL in r.nome)
  {
    var c := CStr(g.nome);
    CStrToBuf(c);
    var r := g.(nome := ToBuf(c));
    if NUL in g.nome then
      assert |c| < TIME_MAX_NAME_SIZE by {
        assert forall k :: 0 <= k < |c| ==> g.nome[k] == c[k] != NUL;
      }
      assert r.nome[|c|] == NUL;
      r
    else
      r
  }

  /** The record of a team none of whose matches was counted: its id and name, every counter 0. */
  function ZeroRecord(t: Time): CalcContext
    reads t
  {
    CalcContext(t.id, ToBuf(CStr(t.name)), 0, 0, 0, 0, 0)
  }

  /**
   * The record of a team over the matches `s`: its id and name, and the wins, draws, losses
   * and goals of the matches in which either team's name begins with its own.
   */
  function TeamRecord(t: Time, s: seq<Partida>): CalcContext
    reads t, s, set p | p in s :: p.t1, set p | p in s :: p.t2
  {
    TallyCounted(ZeroRecord(t), s)
  }

  /**
   * The copy ctxcp makes after calcularEstatisticas is the team's record, whatever name the
   * previous context held: a reset context copies the zero record, and one tallied over a
   * search by the team's name copies the team's record.
   */
  lemma RecordOfStats(prev: CalcContext, t: Time, prefix: NameBuf, s: seq<Partida>)
    requires NUL in t.name && CStr(prefix) == CStr(t.name)
    ensures CtxCp(Reset(prev, t)) == ZeroRecord(t)
    ensures CtxCp(Tally(Reset(prev, t), EitherMatches(prefix, s))) == TeamRecord(t, s)
  {
    var nome := ToBuf(CStr(t.name));
    CStrToBuf(CStr(t.name));
    EitherMatchesByName(prefix, nome, s);
    var c := Reset(prev, t);
    var m := EitherMatches(nome, s);
    TallyByName(c, nome, m);
    TallyCounts(c, m);
    assert c.(nome := nome) == ZeroRecord(t);
    TallyCountedIsSearchThenTally(ZeroRecord(t), s);
  }

  /** The points of a team's record: three per win and one per draw over its counted matches, at most three per match. */
  lemma RecordPoints(t: Time, s: seq<Partida>)
    ensures var nome := ToBuf(CStr(t.name));
      var m := EitherMatches(nome, s);
      var r := TeamRecord(t, s);
      && r.id == t.id && StrEq(r.nome, t.name)
      && r.vitorias + r.empates + r.derrotas == |m|
      && Points(r) == 3 * Wins(nome, m) + Draws(nome, m)
      && 0 <= Points(r) <= 3 * |m|
      && Balance(r) == GoalsFor(nome, m) - GoalsAgainst(nome, m)
  {
    var nome := ToBuf(CStr(t.name));
    CStrToBuf(CStr(t.name));
    var m := EitherMatches(nome, s);
    TallyCountedIsSearchThenTally(ZeroRecord(t), s);
    TallyCounts(CalcContext(t.id, nome, 0, 0, 0, 0, 0), m);
    TallyFromZero(CalcContext(t.id, nome, 0, 0, 0, 0, 0), m);
  }

  // ------------------------------------------------------------------
  // loadContext
  // ------------------------------------------------------------------

  /**
   * Whether each allocation of forEachTimeLoadContext succeeds for the team at position `i`
   * of the team list: the record's (`record(i)`), the search result's inside
   * calcularEstatisticas (`search(i)`) and the list node's inside llAdd (`node(i)`).
   */
  datatype Allocs = Allocs(record: nat -> bool, search: nat -> bool, node: nat -> bool)

  /** The record of the team `t`: over the matches `s` when they were `counted`, its zero record otherwise. */
  ghost function RecordOf(t: Time, s: seq<Partida>, counted: bool): CalcContext
    reads t, s, Sides(s)
  {
    if counted then TeamRecord(t, s) else ZeroRecord(t)
  }

  /**
   * What forEachTimeLoadContext adds for the team `t` at position `i`: nothing when its record
   * or its node cannot be allocated; otherwise its record over the matches `s`, or its zero
   * record when the match repository is not started or the search finds no memory.
   */
  ghost function Entry(t: Time, i: nat, s: seq<Partida>, started: bool, a: Allocs): seq<CalcContext>
    reads t, s, Sides(s)
  {
    if !a.record(i) || !a.node(i) then [] else [RecordOf(t, s, started && a.search(i))]
  }

  /** The records loadContext collects over the teams `ts`, in the order of the team list. */
  ghost function Loaded(ts: seq<Time>, s: seq<Partida>, started: bool, a: Allocs): seq<CalcContext>
    reads set k | 0 <= k < |ts| :: ts[k]
    reads s, Sides(s)
    decreases |ts|
  {
    if ts == [] then []
    else Loaded(ts[..|ts| - 1], s, started, a) + Entry(ts[|ts| - 1], |ts| - 1, s, started, a)
  }

  /**
   * At most one record per team; and when every allocation succeeds and the match repository
   * is started, exactly one per team, in the order of the team list, each the team's record.
   */
  lemma {:induction false} LoadedRecords(ts: seq<Time>, s: seq<Partida>, started: bool, a: Allocs)
    ensures |Loaded(ts, s, started, a)| <= |ts|
    ensures started && (forall i :: a.record(i) && a.search(i) && a.node(i)) ==>
      var r := Loaded(ts, s, started, a);
      |r| == |ts| && forall k :: 0 <= k < |ts| ==> r[k] == TeamRecord(ts[k], s)
    decreases |ts|
  {
    if ts != [] {
      var n := |ts| - 1;
      LoadedRecords(ts[..n], s, started, a);
      assert Loaded(ts, s, started, a) == Loaded(ts[..n], s, started, a) + Entry(ts[n], n, s, started, a);
      if started && (forall i :: a.record(i) && a.search(i) && a.node(i)) {
        var r0 := Loaded(ts[..n], s, started, a);
        assert a.record(n) && a.search(n) && a.node(n);
        assert Loaded(ts, s, started, a) == r0 + [TeamRecord(ts[n], s)];
        forall k | 0 <= k < n
          ensures r0[k] == TeamRecord(ts[k], s)
        {
          assert ts[..n][k] == ts[k];
        }
      }
    }
  }

  /** The objects the soundness of the repositories depends on. */
  ghost function DbRepr(db: PartidaDB): set<object>
    reads db, db.teams, db.teams.times, db.partidas
  {
    {db, db.teams} + (if db.teams.times == null then {} else {db.teams.times as object})
      + ListRepr(db.teams.times) + (if db.partidas == null then {} else {db.partidas as object})
      + ListRepr(db.partidas)
  }

  /**
   * The repositories are sound: `db.Valid()` under a name of its own, so that the loading methods
   * below carry it through their calls as one fact and unfold it only where a proof needs it.
   */
  ghost predicate Sound(db: PartidaDB)
    reads db, db.teams, db.teams.times, db.partidas, DbRepr(db)
  {
    db.Valid()
  }

  /** The records loadContext builds from the repositories: none when there is no team list. */
  ghost function Standings(db: PartidaDB, a: Allocs): seq<CalcContext>
    reads *
  {
    if db.teams.times == null then [] else Loaded(db.teams.times.Contents, Matches(db), db.partidas != null, a)
  }

  /** The matches of the repository, none when it is not started. */
  ghost function Matches(db: PartidaDB): seq<Partida>
    reads db, db.partidas
  {
    if db.partidas == null then [] else db.partidas.Contents
  }

  /**
   * calcularEstatisticas followed by ctxcp: the copy is the team's record over the repository's
   * matches, counted when the repository is started and the search finds memory.
   */
  method StatsOf(db: PartidaDB, t: Time, prev: CalcContext, memOk: bool) returns (ctx: CalcContext, rec: CalcContext)
    requires Sound(db) && NUL in t.name && db.teams.times != null
    modifies db.teams
    ensures Sound(db) && db.teams.times == old(db.teams.times)
    ensures rec == RecordOf(t, Matches(db), db.partidas != null && memOk)
  {
    ctx := CalcularEstatisticas(db, t, prev, memOk);
    if db.partidas != null && memOk {
      RecordOfStats(prev, t, db.teams.prefixSearch, Matches(db));
    } else {
      RecordOfStats(prev, t, ctx.nome, Matches(db));
    }
    rec := CtxCp(ctx);
  }

  /**
   * The first half of forEachTimeLoadContext for the team `t` at position `i`: allocates a
   * record, runs calcularEstatisticas on the team, which updates the context `prev` to the
   * returned `ctx`, and copies the context into the record. No record (`None`) when its
   * allocation fails, in which case the team's statistics are not computed. The record is the
   * team's record as it stood when the step began.
   */
  method StatsRecord(db: PartidaDB, t: Time, i: nat, prev: CalcContext, a: Allocs)
    returns (ctx: CalcContext, rec: Option<CalcContext>)
    requires Sound(db) && NUL in t.name && db.teams.times != null
    modifies db.teams
    ensures Sound(db) && db.teams.times == old(db.teams.times)
    ensures rec.Some? <==> a.record(i)
    ensures rec.Some? ==> rec.value == old(RecordOf(t, Matches(db), db.partidas != null && a.search(i)))
  {
    if !a.record(i) {
      return prev, None;
    }
    var r;
    ctx, r := StatsBefore(db, t, prev, a.search(i));
    rec := Some(r);
  }

  /** StatsOf, with the record stated over the repositories as they stood before the call. */
  method StatsBefore(db: PartidaDB, t: Time, prev: CalcContext, memOk: bool) returns (ctx: CalcContext, rec: CalcContext)
    requires Sound(db) && NUL in t.name && db.teams.times != null
    modifies db.teams
    ensures Sound(db) && db.teams.times == old(db.teams.times)
    ensures rec == old(RecordOf(t, Matches(db), db.partidas != null && memOk))
  {
    ghost var s := Matches(db);
    ghost var want := RecordOf(t, s, db.partidas != null && memOk);
    ctx, rec := StatsOf(db, t, prev, memOk);
    assert RecordOf(t, s, db.partidas != null && memOk) == want;
  }

  /**
   * The records llAdd keeps out of `pending`, the record (or the failed record allocation,
   * `None`) of each team in list order: those whose node can be allocated.
   */
  function Kept(pending: seq<Option<CalcContext>>, a: Allocs): seq<CalcContext>
    decreases |pending|
  {
    if pending == [] then []
    else
      var n := |pending| - 1;
      Kept(pending[..n], a) + (if pending[n].Some? && a.node(n) then [pending[n].value] else [])
  }

  /**
   * One llAdd of forEachTimeLoadContext: the record is appended when there is one and its node
   * can be allocated, and freed otherwise. The records list lies apart from `d`, which holds
   * the objects of the repositories, so they stay sound.
   */
  method AddRecord(records: LinkedList<CalcContext>, rec: Option<CalcContext>, memOk: bool, ghost db: PartidaDB, ghost d: set<object>)
    requires records.Valid() && Sound(db) && DbRepr(db) <= d && records.Repr !! d
    modifies records.Repr
    ensures records.Valid() && Sound(db) && records.Repr !! d && fresh(records.Repr - old(records.Repr))
    ensures records.Contents == old(records.Contents) + (if rec.Some? && memOk then [rec.value] else [])
  {
    var ok := Add(records, rec, memOk);
  }

  /** The llAdd calls of forEachTimeLoadContext, in team order, onto the empty list `records`. */
  method AddPending(records: LinkedList<CalcContext>, pending: seq<Option<CalcContext>>, a: Allocs, ghost db: PartidaDB, ghost d: set<object>)
    requires records.Valid() && records.Contents == []
    requires Sound(db) && DbRepr(db) <= d && records.Repr !! d
    modifies records.Repr
    ensures Sound(db)
    ensures records.Valid() && fresh(records.Repr - old(records.Repr))
    ensures records.Contents == Kept(pending, a)
  {
    var j := 0;
    while j < |pending|
      invariant 0 <= j <= |pending|
      invariant records.Valid() && fresh(records.Repr - old(records.Repr))
      invariant Sound(db) && records.Repr !! d
      invariant records.Contents == Kept(pending[..j], a)
    {
      AddRecord(records, pending[j], a.node(j), db, d);
      assert pending[..j + 1][..j] == pending[..j];
      j := j + 1;
    }
    assert pending[..j] == pending;
  }

  /** The llNew of loadContext when memory is found: an empty list apart from the objects `d`. */
  method NewRecords(ghost d: set<object>) returns (records: LinkedList<CalcContext>)
    ensures fresh(records.Repr) && records.Valid() && records.Contents == [] && records.Repr !! d
  {
    records := NewLinkedList(true);
  }

  /** Every team of a started team list holds a terminated name. */
  ghost predicate NamesTerminated(l: LinkedList?<Time>)
    reads l, set k | l != null && 0 <= k < |l.Contents| :: l.Contents[k]
  {
    l != null ==> forall k :: 0 <= k < |l.Contents| ==> NUL in l.Contents[k].name
  }

  /**
   * The statistics half of llForEach(timeDBGetAll(), forEachTimeLoadContext): for each team in
   * list order, the record forEachTimeLoadContext copies (or `None` when the record cannot be
   * allocated), together with the context calcularEstatisticas leaves behind.
   */
  method StatsRecords(db: PartidaDB, teams: LinkedList<Time>, prev: CalcContext, a: Allocs)
    returns (ctx: CalcContext, pending: seq<Option<CalcContext>>)
    requires Sound(db) && db.teams.times == teams && NamesTerminated(teams)
    modifies db.teams
    ensures Sound(db) && db.teams.times == teams
    ensures |pending| == |old(teams.Contents)|
    ensures Kept(pending, a) == old(Loaded(teams.Contents, Matches(db), db.partidas != null, a))
  {
    ctx := prev;
    ghost var ts := teams.Contents;
    ghost var s := Matches(db);
    ghost var started := db.partidas != null;
    pending := [];
    var n := teams.first;
    var i := 0;
    while n != null
      invariant 0 <= i <= |teams.nodes| && n == (if i < |teams.nodes| then teams.nodes[i] else null)
      invariant Sound(db) && db.teams.times == teams && teams.Contents == ts
      invariant |pending| == i && Kept(pending, a) == old(Loaded(ts[..i], s, started, a))
      decreases |ts| - i
    {
      var rec;
      ghost var want := old(RecordOf(ts[i], s, started && a.search(i)));
      ctx, rec := StatsRecord(db, n.data, i, ctx, a);
      assert rec.Some? ==> rec.value == want;
      assert (pending + [rec])[..i] == pending;
      pending := pending + [rec];
      assert ts[..i + 1][..i] == ts[..i];
      n := n.next;
      i := i + 1;
    }
    assert ts[..i] == ts;
  }

  /**
   * loadContext, with `gCalcContext` passed in as `g` and returned as `records`, and the
   * context of calcularEstatisticas as `prev` and `ctx`: refused (false) when a list is
   * already loaded or a new one cannot be allocated (`listOk`); otherwise the records of the
   * teams, in the order of the team list, as forEachTimeLoadContext adds them.
   */
  method LoadContext(db: PartidaDB, g: LinkedList?<CalcContext>, prev: CalcContext, listOk: bool, a: Allocs)
    returns (ok: bool, records: LinkedList?<CalcContext>, ctx: CalcContext)
    requires Sound(db) && NamesTerminated(db.teams.times)
    modifies db.teams
    ensures Sound(db) && db.teams.times == old(db.teams.times)
    ensures ok <==> g == null && listOk
    ensures !ok ==> records == g
    ensures ok ==> records != null && fresh(records.Repr) && records.Valid()
    ensures DbRepr(db) == old(DbRepr(db))
    ensures ok && db.teams.times == null ==> records.Contents == []
    ensures ok && db.teams.times != null ==>
      records.Contents == old(Loaded(db.teams.times.Contents, Matches(db), db.partidas != null, a))
  {
    ctx := prev;
    if g != null {
      return false, g, ctx;
    }
    if !listOk {
      return false, null, ctx;
    }
    var teams := db.teams.GetAllTimes();
    var pending := [];
    if teams != null {
      ctx, pending := StatsRecords(db, teams, ctx, a);
    }
    ghost var d := DbRepr(db);
    records := NewRecords(d);
    ok := true;
    AddPending(records, pending, a, db, d);
  }

  // ------------------------------------------------------------------
  // orderResult
  // ------------------------------------------------------------------

  /**
   * orderResult: `greater_than` when the first record has more points, `less_than` when it has
   * fewer, and `equal` otherwise; records with equal points are not told apart by id.
   */
  function OrderResult(r1: CalcContext, r2: CalcContext): (o: Order)
    ensures o == GreaterThan <==> Points(r1) > Points(r2)
    ensures o == LessThan <==> Points(r1) < Points(r2)
    ensures o == Equal <==> Points(r1) == Points(r2)
  {
    var pg1 := r1.vitorias * 3 + r1.empates;
    var pg2 := r2.vitorias * 3 + r2.empates;
    if pg1 > pg2 then GreaterThan
    else if pg1 < pg2 then LessThan
    else Equal
  }

  // ------------------------------------------------------------------
  // Pages
  // ------------------------------------------------------------------

  /** `totalPaginas`: the pages of five records needed for `n` records, rounded up. */
  function TotalPages(n: nat): (r: nat)
    ensures n <= r * POR_PAGINA < n + POR_PAGINA
  {
    (n + POR_PAGINA - 1) / POR_PAGINA
  }

  /** No page for no records; otherwise the last page holds between one and five records. */
  lemma TotalPagesBounds(n: nat)
    ensures TotalPages(n) == 0 <==> n == 0
    ensures n > 0 ==> (TotalPages(n) - 1) * POR_PAGINA < n <= TotalPages(n) * POR_PAGINA
  {
  }

  /** `start`: the index of the first record of page `p`. */
  function PageStart(p: int): (r: int)
    ensures 1 <= p ==> 0 <= r && r % POR_PAGINA == 0 && r / POR_PAGINA == p - 1
  {
    (p - 1) * POR_PAGINA
  }

  /** `end`: the index of the fifth record of page `p`, or the size when that is smaller. */
  function PageEnd(p: int, size: int): (r: int)
    ensures r <= size && r <= PageStart(p) + POR_PAGINA - 1
    ensures r == size || r == PageStart(p) + POR_PAGINA - 1
  {
    var end := PageStart(p) + POR_PAGINA - 1;
    if end > size then size else end
  }

  /** The records of page `p`: the five from its start on, fewer on the last page, none past the end. */
  function PageRecords(c: seq<CalcContext>, p: int): (r: seq<CalcContext>)
    ensures |r| <= POR_PAGINA
  {
    if p < 1 || PageStart(p) >= |c| then []
    else c[PageStart(p)..if p * POR_PAGINA < |c| then p * POR_PAGINA else |c|]
  }

  /**
   * The pages divide the records: record `k` is at position `k % 5` of page `k / 5 + 1`,
   * every page before the last holds five records and the last holds the rest.
   */
  lemma PagesPartition(c: seq<CalcContext>)
    ensures forall k :: 0 <= k < |c| ==>
      k / POR_PAGINA + 1 <= TotalPages(|c|) && PageRecords(c, k / POR_PAGINA + 1)[k % POR_PAGINA] == c[k]
    ensures forall p :: 1 <= p < TotalPages(|c|) ==> |PageRecords(c, p)| == POR_PAGINA
    ensures |c| > 0 ==> |PageRecords(c, TotalPages(|c|))| == |c| - (TotalPages(|c|) - 1) * POR_PAGINA
    ensures forall p :: p < 1 || p > TotalPages(|c|) ==> PageRecords(c, p) == []
  {
    TotalPagesBounds(|c|);
    forall k | 0 <= k < |c|
      ensures k / POR_PAGINA + 1 <= TotalPages(|c|) && PageRecords(c, k / POR_PAGINA + 1)[k % POR_PAGINA] == c[k]
    {
      var p := k / POR_PAGINA + 1;
      assert PageStart(p) + k % POR_PAGINA == k;
    }
  }

  /**
   * The llDeepCopy of a page holds its records: for a page within the list the arguments
   * `start` and `end` are accepted, and the copy runs to `end` inclusive, or to the last
   * record when `end` is the size.
   */
  lemma PageCopy(c: seq<CalcContext>, p: int)
    requires 1 <= p && PageStart(p) < |c|
    ensures !DeepCopyRefuses(false, |c|, PageStart(p), PageEnd(p, |c|))
    ensures c[PageStart(p)..CopyLimit(PageEnd(p, |c|), |c|)] == PageRecords(c, p)
  {
  }

  // ------------------------------------------------------------------
  // The page loop
  // ------------------------------------------------------------------

  /**
   * What one answer to the page prompt is: an answer whose first character is `q` or `Q`, a
   * text strtol reads a number from, or one it reads no digits from.
   */
  datatype PageInput = Quit | Number(n: int) | NotNumber

  /** The page after an answer other than `Quit`: the number read when it names a page, the current page otherwise. */
  function NextPage(current: int, input: PageInput, totalPages: int): (r: int)
    requires !input.Quit?
    ensures input.Number? && 1 <= input.n <= totalPages ==> r == input.n
    ensures !(input.Number? && 1 <= input.n <= totalPages) ==> r == current
  {
    match input
    case Number(n) => if n < 1 || n > totalPages then current else n
    case NotNumber => current
  }

  /**
   * The pages shown while answering `inputs`, starting at page `current`: each page is shown
   * and then an answer read; the session ends after a `Quit` (or when the answers run out).
   */
  function Visited(inputs: seq<PageInput>, current: int, totalPages: int): (r: seq<int>)
    ensures |r| <= |inputs|
    decreases |inputs|
  {
    if inputs == [] then []
    else [current] + (if inputs[0].Quit? then [] else Visited(inputs[1..], NextPage(current, inputs[0], totalPages), totalPages))
  }

  /** A page the session may show: the first page, or a page of the table. */
  predicate IsPage(p: int, totalPages: int) {
    p == 1 || 1 <= p <= totalPages
  }

  /**
   * Every page shown is the first page or a page of the table: an answer outside 1 to
   * `totalPages`, or no number at all, leaves the page as it is.
   */
  lemma {:induction false} VisitedPages(inputs: seq<PageInput>, current: int, totalPages: int)
    requires IsPage(current, totalPages)
    ensures forall k :: 0 <= k < |Visited(inputs, current, totalPages)| ==> IsPage(Visited(inputs, current, totalPages)[k], totalPages)
    decreases |inputs|
  {
    if inputs != [] && !inputs[0].Quit? {
      var rest := Visited(inputs[1..], NextPage(current, inputs[0], totalPages), totalPages);
      VisitedPages(inputs[1..], NextPage(current, inputs[0], totalPages), totalPages);
      var r := Visited(inputs, current, totalPages);
      assert r == [current] + rest;
      forall k | 0 <= k < |r| ensures IsPage(r[k], totalPages) {
        if k > 0 {
          assert r[k] == rest[k - 1];
        }
      }
    }
  }

  /** Without a `Quit`, the session shows one page per answer. */
  lemma {:induction false} VisitedAll(inputs: seq<PageInput>, current: int, totalPages: int)
    requires forall k :: 0 <= k < |inputs| ==> !inputs[k].Quit?
    ensures |Visited(inputs, current, totalPages)| == |inputs|
    decreases |inputs|
  {
    if inputs != [] {
      var rest := inputs[1..];
      assert !inputs[0].Quit?;
      forall k | 0 <= k < |rest| ensures !rest[k].Quit? {
        assert rest[k] == inputs[k + 1];
      }
      VisitedAll(rest, NextPage(current, inputs[0], totalPages), totalPages);
    }
  }

  /** The session shows one page per answer up to and including the first `Quit`, and no more. */
  lemma {:induction false} VisitedUntilQuit(inputs: seq<PageInput>, current: int, totalPages: int, k: int)
    requires 0 <= k < |inputs| && inputs[k].Quit?
    requires forall j :: 0 <= j < k ==> !inputs[j].Quit?
    ensures |Visited(inputs, current, totalPages)| == k + 1
    decreases |inputs|
  {
    if k > 0 {
      var rest := inputs[1..];
      assert !inputs[0].Quit? && rest[k - 1] == inputs[k];
      forall j | 0 <= j < k - 1 ensures !rest[j].Quit? {
        assert rest[j] == inputs[j + 1];
      }
      VisitedUntilQuit(rest, NextPage(current, inputs[0], totalPages), totalPages, k - 1);
    }
  }

  /** printCalcWrapper as the callback llForeach applies: the record is added to what the page has shown. */
  function PrintCalc(): (seq<CalcContext>, CalcContext) -> seq<CalcContext> {
    (out: seq<CalcContext>, r: CalcContext) => out + [r]
  }

  /** Printing each record of `s` in turn shows exactly the records of `s`, in order. */
  lemma {:induction false} PrintedInOrder(out: seq<CalcContext>, s: seq<CalcContext>)
    ensures FoldLeft(PrintCalc(), out, s) == out + s
    decreases |s|
  {
    if s != [] {
      PrintedInOrder(out + [s[0]], s[1..]);
      assert out + [s[0]] + s[1..] == out + s;
    }
  }

  /** The session from answer `k` on: page `current` is shown, then the session goes on unless the answer is `Quit`. */
  lemma VisitedStep(all: seq<int>, pages: seq<int>, inputs: seq<PageInput>, k: int, current: int, totalPages: int)
    requires 0 <= k < |inputs| && all == pages + Visited(inputs[k..], current, totalPages)
    ensures inputs[k].Quit? ==> all == pages + [current]
    ensures !inputs[k].Quit? ==>
      all == (pages + [current]) + Visited(inputs[k + 1..], NextPage(current, inputs[k], totalPages), totalPages)
  {
    assert inputs[k..][0] == inputs[k] && inputs[k..][1..] == inputs[k + 1..];
    var rest := if inputs[k].Quit? then [] else Visited(inputs[k + 1..], NextPage(current, inputs[k], totalPages), totalPages);
    assert Visited(inputs[k..], current, totalPages) == [current] + rest;
    assert pages + ([current] + rest) == (pages + [current]) + rest;
  }

  /** What the page `p` shows: its records when its copy can be allocated (`copyOk`), nothing otherwise. */
  function Shown(c: seq<CalcContext>, p: int, copyOk: bool): seq<CalcContext> {
    if copyOk then PageRecords(c, p) else []
  }

  /** What the session shows for the pages `pages`, the `j`-th page's copy allocated when `copyOk(j)`. */
  function ShownPages(c: seq<CalcContext>, pages: seq<int>, copyOk: nat -> bool): (r: seq<seq<CalcContext>>)
    ensures |r| == |pages|
    decreases |pages|
  {
    if pages == [] then []
    else
      var n := |pages| - 1;
      ShownPages(c, pages[..n], copyOk) + [Shown(c, pages[n], copyOk(n))]
  }

  /** The `j`-th page the session shows is page `pages[j]`, or nothing when its copy was not allocated. */
  lemma {:induction false} ShownPagesAt(c: seq<CalcContext>, pages: seq<int>, copyOk: nat -> bool, j: int)
    requires 0 <= j < |pages|
    ensures ShownPages(c, pages, copyOk)[j] == Shown(c, pages[j], copyOk(j))
    decreases |pages|
  {
    var n := |pages| - 1;
    if j < n {
      ShownPagesAt(c, pages[..n], copyOk, j);
    }
  }

  /** Showing one more page appends what it shows. */
  lemma ShownPagesSnoc(c: seq<CalcContext>, pages: seq<int>, p: int, copyOk: nat -> bool)
    ensures ShownPages(c, pages + [p], copyOk) == ShownPages(c, pages, copyOk) + [Shown(c, p, copyOk(|pages|))]
  {
    assert (pages + [p])[..|pages|] == pages;
  }

  /**
   * One pass of the page loop: the page `p` is copied with llDeepCopy, shown and its copy freed
   * with llFullFree without a destructor, so the records themselves stay.
   */
  method ShowPage(records: LinkedList<CalcContext>, p: int, copyOk: bool) returns (page: seq<CalcContext>)
    requires records.Valid() && 1 <= p
    ensures records.Valid() && records.Contents == old(records.Contents)
    ensures page == Shown(records.Contents, p, copyOk)
  {
    var start := (p - 1) * POR_PAGINA;
    var end := start + POR_PAGINA - 1;
    end := if end > GetSize(records) then GetSize(records) else end;
    GetSizeCounts(records);
    if PageStart(p) < |records.Contents| {
      PageCopy(records.Contents, p);
    }
    var pagina := DeepCopy(records, start, end, copyOk);
    page := Foreach(pagina, Some(PrintCalc()), []);
    if pagina != null {
      PrintedInOrder([], pagina.Contents);
    }
    var freed := FullFree(pagina, false);
  }

  /**
   * The page loop of viewTabelaClassificacao over the answers `inputs`, from page 1: the pages
   * it shows, in order, each as `Shown` gives it, and whether it ended by a `Quit`.
   */
  method PageLoop(records: LinkedList<CalcContext>, inputs: seq<PageInput>, copyOk: nat -> bool)
    returns (shown: seq<seq<CalcContext>>, quit: bool)
    requires records.Valid()
    ensures shown == ShownPages(records.Contents, Visited(inputs, 1, TotalPages(|records.Contents|)), copyOk)
    ensures quit <==> exists k :: 0 <= k < |inputs| && inputs[k].Quit?
  {
    GetSizeCounts(records);
    var totalPaginas := (GetSize(records) + POR_PAGINA - 1) / POR_PAGINA;
    ghost var c := records.Contents;
    assert totalPaginas == TotalPages(|c|);
    ghost var all := Visited(inputs, 1, totalPaginas);
    var paginaAtual := 1;
    var k := 0;
    ghost var pages: seq<int> := [];
    shown := [];
    quit := false;
    while k < |inputs|
      invariant 0 <= k <= |inputs| && |shown| == k && |pages| == k && paginaAtual >= 1
      invariant ValidOrNull(records) && records.Contents == c
      invariant all == pages + Visited(inputs[k..], paginaAtual, totalPaginas)
      invariant shown == ShownPages(c, pages, copyOk)
      invariant forall j :: 0 <= j < k ==> !inputs[j].Quit?
      decreases |inputs| - k
    {
      var page := ShowPage(records, paginaAtual, copyOk(k));
      VisitedStep(all, pages, inputs, k, paginaAtual, totalPaginas);
      ShownPagesSnoc(c, pages, paginaAtual, copyOk);
      pages := pages + [paginaAtual];
      shown := shown + [page];
      if inputs[k].Quit? {
        quit := true;
        return;
      }
      paginaAtual := NextPage(paginaAtual, inputs[k], totalPaginas);
      k := k + 1;
    }
    assert all == pages;
  }

  /**
   * What viewTabelaClassificacao does with a loaded records list: the sort with orderResult,
   * the page loop, and llFullFree with `free`, which hands back the records themselves.
   */
  method ShowStandings(records: LinkedList<CalcContext>, inputs: seq<PageInput>, copyOk: nat -> bool)
    returns (shown: seq<seq<CalcContext>>, quit: bool, freed: seq<CalcContext>)
    requires records.Valid()
    modifies records.Repr
    ensures multiset(freed) == multiset(old(records.Contents)) && SortedDesc(Points, freed)
    ensures shown == ShownPages(freed, Visited(inputs, 1, TotalPages(|freed|)), copyOk)
    ensures quit <==> exists k :: 0 <= k < |inputs| && inputs[k].Quit?
  {
    var sorted := BubbleSort(records, Some(OrderResult), Points);
    shown, quit := PageLoop(records, inputs, copyOk);
    freed := FullFree(records, true);
  }

  /**
   * viewTabelaClassificacao, with `gCalcContext` passed in as `g` and returned as `gOut`, the
   * console answers as `inputs`, and the allocations of the records list (`listOk`), of the
   * records (`a`) and of the page copies (`copyOk`) as parameters. When loadContext refuses,
   * nothing is shown and `gCalcContext` keeps its value. Otherwise the records, sorted by
   * points in descending order with orderResult, are shown page by page as the answers lead,
   * then freed with their payloads, and `gCalcContext` is NULL again.
   */
  method ViewTabelaClassificacao(db: PartidaDB, g: LinkedList?<CalcContext>, prev: CalcContext, listOk: bool,
                                 a: Allocs, inputs: seq<PageInput>, copyOk: nat -> bool)
    returns (ok: bool, ctx: CalcContext, shown: seq<seq<CalcContext>>, quit: bool, freed: seq<CalcContext>,
             gOut: LinkedList?<CalcContext>)
    requires Sound(db) && NamesTerminated(db.teams.times)
    modifies db.teams
    ensures Sound(db) && db.teams.times == old(db.teams.times)
    ensures ok <==> g == null && listOk
    ensures !ok ==> gOut == g && shown == [] && freed == [] && !quit
    ensures ok ==> gOut == null
    ensures ok ==> multiset(freed) == multiset(old(Standings(db, a)))
    ensures ok ==> SortedDesc(Points, freed)
    ensures ok ==> shown == ShownPages(freed, Visited(inputs, 1, TotalPages(|freed|)), copyOk)
    ensures ok ==> (quit <==> exists k :: 0 <= k < |inputs| && inputs[k].Quit?)
  {
    var records;
    ok, records, ctx := LoadContext(db, g, prev, listOk, a);
    shown, quit, freed := [], false, [];
    if !ok {
      return ok, ctx, shown, quit, freed, records;
    }
    shown, quit, freed := ShowStandings(records, inputs, copyOk);
    gOut := null;
  }
}
