/**
 * The per-team statistics of the team view (src/views/1_time.c): for one team, the matches of
 * the either-side search for its name are scanned and each adds one win, draw or loss and its
 * goals to the context record, which the C code keeps in the global `gContext`.
 */
module TeamStats {
  import opened Wrappers
  import opened Types
  import opened CStrings
  import opened LinkedLists
  import opened TimeModel
  import opened PartidaModel
  import opened TimeRepo
  import opened PartidaRepo

  /** The CalcContext record: a team's id and name and its five counters. */
  datatype CalcContext = CalcContext(
    id: int, nome: NameBuf, vitorias: int, empates: int, derrotas: int, gm: int, gs: int)

  /** The points printCalc shows: three per win and one per draw. */
  function Points(c: CalcContext): (r: int)
    ensures 0 <= c.vitorias && 0 <= c.empates ==> 3 * c.vitorias <= r <= 3 * (c.vitorias + c.empates)
  {
    c.vitorias * 3 + c.empates
  }

  /** The goal balance printCalc shows. */
  function Balance(c: CalcContext): (r: int)
    ensures r > 0 <==> c.gm > c.gs
    ensures r == 0 <==> c.gm == c.gs
  {
    c.gm - c.gs
  }

  /** `strcpy(dst, src)` into an array of the same size: the C string of `src` and its terminator, the rest of `dst` kept. */
  function StrCpy(dst: NameBuf, src: NameBuf): (r: NameBuf)
    requires NUL in src
    ensures StrEq(r, src) && NUL in r
    ensures forall k :: |CStr(src)| < k < TIME_MAX_NAME_SIZE ==> r[k] == dst[k]
  {
    var c := CStr(src);
    assert |c| < |src| by {
      assert forall k :: 0 <= k < |c| ==> src[k] == c[k] != NUL;
    }
    var r: NameBuf := c + [NUL] + dst[|c| + 1..];
    assert r[..|c|] == c && r[|c|] == NUL;
    CStrUnique(r, c);
    r
  }

  /** The team named `name` plays at home in `p`: the home team's name strcmp-equals it. */
  predicate IsHome(name: NameBuf, p: Partida)
    reads p, p.t1
  {
    p.t1 != null && StrEq(p.t1.name, name)
  }

  /** The goals `marcou` counts for the team named `name`: the home goals when it is at home, the visitors' otherwise. */
  function Scored(name: NameBuf, p: Partida): int
    reads p, p.t1
  {
    if IsHome(name, p) then p.golsT1 else p.golsT2
  }

  /** The goals `sofreu` counts against the team named `name`. */
  function Conceded(name: NameBuf, p: Partida): int
    reads p, p.t1
  {
    if IsHome(name, p) then p.golsT2 else p.golsT1
  }

  /**
   * processPartida: one match adds its goals for and against, and exactly one of the wins (more
   * scored than conceded), the draws (as many) and the losses (fewer); the id and name stay.
   */
  function ProcessPartida(ctx: CalcContext, p: Partida): (r: CalcContext)
    reads p, p.t1
    ensures r.id == ctx.id && r.nome == ctx.nome
    ensures r.gm == ctx.gm + Scored(ctx.nome, p) && r.gs == ctx.gs + Conceded(ctx.nome, p)
    ensures r.vitorias + r.empates + r.derrotas == ctx.vitorias + ctx.empates + ctx.derrotas + 1
    ensures r.vitorias == ctx.vitorias + 1 <==> Scored(ctx.nome, p) > Conceded(ctx.nome, p)
    ensures r.empates == ctx.empates + 1 <==> Scored(ctx.nome, p) == Conceded(ctx.nome, p)
    ensures r.derrotas == ctx.derrotas + 1 <==> Scored(ctx.nome, p) < Conceded(ctx.nome, p)
  {
    var marcou := Scored(ctx.nome, p);
    var sofreu := Conceded(ctx.nome, p);
    var c := ctx.(gm := ctx.gm + marcou, gs := ctx.gs + sofreu);
    if marcou > sofreu then c.(vitorias := c.vitorias + 1)
    else if marcou == sofreu then c.(empates := c.empates + 1)
    else c.(derrotas := c.derrotas + 1)
  }

  /** processPartida as the callback llForeach applies, threading the context. */
  function Step(): (CalcContext, Partida) ~> CalcContext {
    (c: CalcContext, p: Partida) reads p, p.t1 => ProcessPartida(c, p)
  }

  // ------------------------------------------------------------------
  // Reference definitions: the counters as counts and sums over the matches
  // ------------------------------------------------------------------

  /** The number of matches of `s` the team named `name` wins. */
  function Wins(name: NameBuf, s: seq<Partida>): (r: nat)
    reads s, set p | p in s :: p.t1
  {
    if s == [] then 0 else (if Scored(name, s[0]) > Conceded(name, s[0]) then 1 else 0) + Wins(name, s[1..])
  }

  /** The number of matches of `s` the team named `name` draws. */
  function Draws(name: NameBuf, s: seq<Partida>): (r: nat)
    reads s, set p | p in s :: p.t1
  {
    if s == [] then 0 else (if Scored(name, s[0]) == Conceded(name, s[0]) then 1 else 0) + Draws(name, s[1..])
  }

  /** The number of matches of `s` the team named `name` loses. */
  function Losses(name: NameBuf, s: seq<Partida>): (r: nat)
    reads s, set p | p in s :: p.t1
  {
    if s == [] then 0 else (if Scored(name, s[0]) < Conceded(name, s[0]) then 1 else 0) + Losses(name, s[1..])
  }

  /** The goals the team named `name` scores over the matches of `s`. */
  function GoalsFor(name: NameBuf, s: seq<Partida>): int
    reads s, set p | p in s :: p.t1
  {
    if s == [] then 0 else Scored(name, s[0]) + GoalsFor(name, s[1..])
  }

  /** The goals the team named `name` concedes over the matches of `s`. */
  function GoalsAgainst(name: NameBuf, s: seq<Partida>): int
    reads s, set p | p in s :: p.t1
  {
    if s == [] then 0 else Conceded(name, s[0]) + GoalsAgainst(name, s[1..])
  }

  /**
   * The context after processPartida has run over `s` in order, starting from `ctx`: each
   * counter has grown by its count or sum over the matches, and the id and name are kept.
   */
  function Tally(ctx: CalcContext, s: seq<Partida>): CalcContext
    reads s, set p | p in s :: p.t1
    decreases |s|
  {
    if s == [] then ctx else Tally(ProcessPartida(ctx, s[0]), s[1..])
  }

  /**
   * After processPartida has run over `s`, each counter has grown by its count or sum over the
   * matches, and the id and name are kept.
   */
  lemma {:induction false} TallyCounts(ctx: CalcContext, s: seq<Partida>)
    ensures var r := Tally(ctx, s);
      && r.id == ctx.id && r.nome == ctx.nome
      && r.vitorias == ctx.vitorias + Wins(ctx.nome, s)
      && r.empates == ctx.empates + Draws(ctx.nome, s)
      && r.derrotas == ctx.derrotas + Losses(ctx.nome, s)
      && r.gm == ctx.gm + GoalsFor(ctx.nome, s) && r.gs == ctx.gs + GoalsAgainst(ctx.nome, s)
    decreases |s|
  {
    if s != [] {
      TallyCounts(ProcessPartida(ctx, s[0]), s[1..]);
    }
  }

  /** llForeach with processPartida computes the tally. */
  lemma {:induction false} FoldIsTally(ctx: CalcContext, s: seq<Partida>)
    ensures FoldLeft(Step(), ctx, s) == Tally(ctx, s)
    decreases |s|
  {
    if s != [] {
      assert Step()(ctx, s[0]) == ProcessPartida(ctx, s[0]);
      FoldIsTally(ProcessPartida(ctx, s[0]), s[1..]);
    }
  }

  /** Every match is exactly one of a win, a draw and a loss. */
  lemma {:induction false} ResultsCoverMatches(name: NameBuf, s: seq<Partida>)
    ensures Wins(name, s) + Draws(name, s) + Losses(name, s) == |s|
  {
    if s != [] {
      ResultsCoverMatches(name, s[1..]);
    }
  }

  /** The counters of a team that starts from zero over `s`: W + D + L = |s| and points between 0 and 3 per match. */
  lemma TallyFromZero(ctx: CalcContext, s: seq<Partida>)
    requires ctx.vitorias == ctx.empates == ctx.derrotas == ctx.gm == ctx.gs == 0
    ensures var r := Tally(ctx, s);
      && r.vitorias + r.empates + r.derrotas == |s|
      && Points(r) == 3 * Wins(ctx.nome, s) + Draws(ctx.nome, s)
      && 0 <= Points(r) <= 3 * |s|
      && Balance(r) == GoalsFor(ctx.nome, s) - GoalsAgainst(ctx.nome, s)
  {
    TallyCounts(ctx, s);
    ResultsCoverMatches(ctx.nome, s);
  }

  /**
   * One match seen from both teams: when the home and visiting names differ, the home team's
   * goals for are the visitors' goals against and the reverse, and one wins exactly when the
   * other loses.
   */
  lemma BothSidesAgree(home: CalcContext, away: CalcContext, p: Partida)
    requires p.t1 != null && p.t2 != null
    requires StrEq(p.t1.name, home.nome) && StrEq(p.t2.name, away.nome) && !StrEq(p.t1.name, p.t2.name)
    ensures Scored(home.nome, p) == Conceded(away.nome, p) && Conceded(home.nome, p) == Scored(away.nome, p)
    ensures var h, a := ProcessPartida(home, p), ProcessPartida(away, p);
      && (h.vitorias == home.vitorias + 1 <==> a.derrotas == away.derrotas + 1)
      && (h.empates == home.empates + 1 <==> a.empates == away.empates + 1)
      && (h.derrotas == home.derrotas + 1 <==> a.vitorias == away.vitorias + 1)
  {
    assert !IsHome(away.nome, p);
  }

  /** The either-side search depends on the prefix only through its C string. */
  lemma {:induction false} EitherMatchesByName(a: NameBuf, b: NameBuf, s: seq<Partida>)
    requires StrEq(a, b)
    ensures EitherMatches(a, s) == EitherMatches(b, s)
  {
    if s != [] {
      EitherMatchesByName(a, b, s[1..]);
    }
  }

  /**
   * The search and the tally of calcularEstatisticas in one pass over all of `s`: each match in
   * which either team's name begins with the context's name is processed, the others skipped.
   */
  function TallyCounted(ctx: CalcContext, s: seq<Partida>): CalcContext
    reads s, set p | p in s :: p.t1, set p | p in s :: p.t2
    decreases |s|
  {
    if s == [] then ctx
    else TallyCounted(if EitherCheck(ctx.nome, s[0]) then ProcessPartida(ctx, s[0]) else ctx, s[1..])
  }

  /** The one-pass count is the tally of the either-side search by the context's name. */
  lemma {:induction false} TallyCountedIsSearchThenTally(ctx: CalcContext, s: seq<Partida>)
    ensures TallyCounted(ctx, s) == Tally(ctx, EitherMatches(ctx.nome, s))
    decreases |s|
  {
    if s != [] {
      var m := EitherMatches(ctx.nome, s);
      var rest := EitherMatches(ctx.nome, s[1..]);
      if EitherCheck(ctx.nome, s[0]) {
        var c := ProcessPartida(ctx, s[0]);
        assert m == [s[0]] + rest;
        assert m[0] == s[0] && m[1..] == rest;
        TallyCountedIsSearchThenTally(c, s[1..]);
        assert EitherMatches(c.nome, s[1..]) == rest;
      } else {
        assert m == rest;
        TallyCountedIsSearchThenTally(ctx, s[1..]);
      }
    }
  }

  /** The tally depends on the context's name only through its C string. */
  lemma {:induction false} TallyByName(c: CalcContext, nome: NameBuf, s: seq<Partida>)
    requires StrEq(c.nome, nome)
    ensures Tally(c.(nome := nome), s) == Tally(c, s).(nome := nome)
    decreases |s|
  {
    if s != [] {
      assert ProcessPartida(c.(nome := nome), s[0]) == ProcessPartida(c, s[0]).(nome := nome);
      TallyByName(ProcessPartida(c, s[0]), nome, s[1..]);
    }
  }

  /** The record calcularEstatisticas starts from: the team's id and name copied, every counter 0. */
  function Reset(prev: CalcContext, t: Time): (r: CalcContext)
    reads t
    requires NUL in t.name
    ensures r.id == t.id && StrEq(r.nome, t.name)
    ensures r.vitorias == r.empates == r.derrotas == r.gm == r.gs == 0
  {
    CalcContext(t.id, StrCpy(prev.nome, t.name), 0, 0, 0, 0, 0)
  }

  /** The prefix setPrefix stores from a copied team name selects by that name. */
  lemma StoredPrefixIsName(nome: NameBuf)
    requires NUL in nome
    ensures CStr(nome[TIME_MAX_NAME_SIZE - 1 := NUL]) == CStr(nome)
  {
    var c := CStr(nome);
    var b := nome[TIME_MAX_NAME_SIZE - 1 := NUL];
    assert |c| < TIME_MAX_NAME_SIZE by {
      assert forall k :: 0 <= k < |c| ==> nome[k] == c[k] != NUL;
    }
    assert c <= b;
    CStrUnique(b, c);
  }

  /** Every match the statistics count names, on one side or the other, a team whose name begins with this one. */
  lemma CountedMatchesShareName(nome: NameBuf, s: seq<Partida>, p: Partida)
    requires p.t1 != null && p.t2 != null
    requires p in EitherMatches(nome, s)
    ensures p in s
    ensures CStr(nome) <= CStr(p.t1.name) || CStr(nome) <= CStr(p.t2.name)
  {
    EitherIsHomeOrAway(nome, s, p);
    FilterMember(s, (p: Partida) reads p.t1 => HomeCheck(nome, p), p);
    FilterMember(s, (p: Partida) reads p.t2 => AwayCheck(nome, p), p);
  }

  /**
   * The search is by prefix while the side is decided by equal names: a match that "Flamengo"
   * wins 2-0 at home against "Bota" is in the results for "Fla" and counts as a 0-2 away loss
   * for "Fla".
   */
  lemma PrefixNameCountedAsAway(ctx: CalcContext, s: seq<Partida>, p: Partida)
    requires p.t1 != null && p.t2 != null && p in s
    requires ctx.nome == ToBuf("Fla") && p.t1.name == ToBuf("Flamengo") && p.t2.name == ToBuf("Bota")
    requires p.golsT1 == 2 && p.golsT2 == 0
    ensures p in EitherMatches(ctx.nome, s)
    ensures Scored(ctx.nome, p) == 0 && Conceded(ctx.nome, p) == 2
    ensures ProcessPartida(ctx, p).derrotas == ctx.derrotas + 1
  {
    CStrToBuf("Fla");
    CStrToBuf("Flamengo");
    CStrToBuf("Bota");
    assert CStr(ctx.nome) <= CStr(p.t1.name);
    assert !IsHome(ctx.nome, p);
    FilterMember(s, (p: Partida) reads p.t1, p.t2 => EitherCheck(ctx.nome, p), p);
  }

  /**
   * The llIsEmpty test and the llForeach of calcularEstatisticas on a search result: an empty
   * list leaves `ctx` as it is, any other is tallied in order. Reading the result changes
   * nothing in the repositories `db`, which are named only to say so.
   */
  method TallyList(l: LinkedList<Partida>, ctx: CalcContext, ghost db: PartidaDB) returns (acc: CalcContext)
    requires l.Valid() && db.Valid()
    ensures acc == Tally(ctx, l.Contents)
    ensures db.Valid()
    ensures db.partidas != null ==>
      EitherMatches(db.teams.prefixSearch, db.partidas.Contents) == old(EitherMatches(db.teams.prefixSearch, db.partidas.Contents))
  {
    if IsEmpty(l) {
      IsEmptyIffNoElements(l);
      return ctx;
    }
    acc := Foreach(l, Some(Step()), ctx);
    FoldIsTally(ctx, l.Contents);
  }

  /**
   * calcularEstatisticas, with the global context passed in as `prev` and returned: the
   * context is reset to the team's id and name, the matches in which either team's name begins
   * with it are searched and tallied. A NULL result (a repository not started, or no memory)
   * or an empty one leaves the counters at 0.
   */
  method CalcularEstatisticas(db: PartidaDB, t: Time, prev: CalcContext, memOk: bool) returns (ctx: CalcContext)
    requires db.Valid() && NUL in t.name
    modifies db.teams
    ensures db.Valid() && db.teams.times == old(db.teams.times) && db.teams.timeIdSearch == old(db.teams.timeIdSearch)
    ensures db.teams.times == null || db.partidas == null ==> db.teams.prefixSearch == old(db.teams.prefixSearch)
    ensures ctx.id == t.id && StrEq(ctx.nome, t.name)
    ensures db.teams.times == null || db.partidas == null || !memOk ==> ctx == Reset(prev, t)
    ensures db.teams.times != null && db.partidas != null && memOk ==>
      && CStr(db.teams.prefixSearch) == CStr(t.name)
      && ctx == Tally(Reset(prev, t), EitherMatches(db.teams.prefixSearch, db.partidas.Contents))
  {
    ctx := Reset(prev, t);
    var partidas := db.SearchMandanteOrVisitante(ctx.nome, memOk);
    if partidas == null {
      return;
    }
    StoredPrefixIsName(ctx.nome);
    var start := ctx;
    ctx := TallyList(partidas, ctx, db);
    TallyCounts(start, partidas.Contents);
  }
}
