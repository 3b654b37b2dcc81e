/** The distributed-ledger example: a concrete reducer that meets the convergence condition. */
module Ledger {
  import opened Orders
  import opened Events
  import opened Execution
  import opened ExecutionRuns
  import opened Convergence
  import opened DistributedNodes

  type Balances = map<string, int>

  datatype Entry = Entry(account: string, amount: int)

  function Balance(state: Balances, account: string): int {
    if account in state then state[account] else 0
  }

  function Reduce(state: Balances, e: Event<Entry>): Balances {
    var Entry(account, amount) := e.payload;
    if e.kind == "ledger.credit" then state[account := Balance(state, account) + amount]
    else if e.kind == "ledger.debit" then state[account := Balance(state, account) - amount]
    else state
  }

  function LedgerConfig(digest: Event<Entry> -> string): Config<Balances, Entry> {
    Config(map[], (s: Balances, e: Event<Entry>) => Some(Reduce(s, e)), digest)
  }

  lemma ReduceCommutes(s: Balances, x: Event<Entry>, y: Event<Entry>)
    ensures Reduce(Reduce(s, x), y) == Reduce(Reduce(s, y), x)
  {
    if x.payload.account == y.payload.account {
      assert Reduce(Reduce(s, x), y).Keys == Reduce(Reduce(s, y), x).Keys;
    } else {
      assert Reduce(Reduce(s, x), y).Keys == Reduce(Reduce(s, y), x).Keys;
    }
  }

  lemma LedgerConverges(digest: Event<Entry> -> string)
    ensures Timeless(LedgerConfig(digest)) && Converges(LedgerConfig(digest))
  {
    var cfg := LedgerConfig(digest);
    assert Timeless(cfg);
    forall h: seq<Event<Entry>>, x: Event<Entry>, y: Event<Entry>
      ensures Lenient(cfg, h + [x, y]) == Lenient(cfg, h + [y, x])
    {
      LastTwo(cfg, h, x, y);
      LastTwo(cfg, h, y, x);
      ReduceCommutes(Lenient(cfg, h), x, y);
    }
    CommutingConverges(cfg);
  }

  /** Ledger nodes converge: whatever they emitted, failed to emit, merged, imported or reset,
      two nodes that merge each other's history end with the same balances, and no such merge
      throws; likewise when the second merges what the first has after its merge. */
  lemma LedgerNodesConverge(digest: Event<Entry> -> string,
      opsA: seq<Op<Balances, Entry>>, opsB: seq<Op<Balances, Entry>>,
                            clockA: nat -> int, clockB: nat -> int)
    requires IdFixesEvent(false, Run(LedgerConfig(digest), opsA).log, Run(LedgerConfig(digest), opsB).log)
    ensures var cfg := LedgerConfig(digest);
            var a, b := Run(cfg, opsA), Run(cfg, opsB);
            var x := MergeAll(cfg, a, b.log, clockA);
            var y, z := MergeAll(cfg, b, a.log, clockB), MergeAll(cfg, b, x.engine.log, clockB);
            x.ok && y.ok && z.ok && x.engine.current == y.engine.current == z.engine.current
  {
    var cfg := LedgerConfig(digest);
    LedgerConverges(digest);
    LedgerRun(digest, opsA);
    LedgerRun(digest, opsB);
    var a, b := Run(cfg, opsA), Run(cfg, opsB);
    var x := MergeAll(cfg, a, b.log, clockA);
    LedgerMerge(digest, a, b, clockA);
    LedgerMerge(digest, b, a, clockB);
    LedgerMerge(digest, b, x.engine, clockB);
    MutualMergeConverges(cfg, false, a, b, clockA, clockB);
  }

  lemma LedgerRun(digest: Event<Entry> -> string, ops: seq<Op<Balances, Entry>>)
    ensures Inv(Run(LedgerConfig(digest), ops)) && Folded(LedgerConfig(digest), Run(LedgerConfig(digest), ops))
  {
    LedgerConverges(digest);
    TimelessRunsAreSteady(LedgerConfig(digest), ops);
    RunInvariant(LedgerConfig(digest), ops);
  }

  lemma LedgerMerge(digest: Event<Entry> -> string, a: EngineState<Balances, Entry>, b: EngineState<Balances, Entry>,
                    clock: nat -> int)
    requires Inv(a) && Inv(b)
    ensures var m := MergeAll(LedgerConfig(digest), a, b.log, clock); m.ok && Inv(m.engine)
  {
    var cfg := LedgerConfig(digest);
    InvIsWellFormed(b);
    MergeGoesThrough(cfg, a, b.log, clock);
    TotalAdvances(cfg, a.current, Missing(a.log, b.log));
  }

  /** What the credits, or the debits, of an account in a history add up to. */
  function Total(log: seq<Event<Entry>>, kind: string, account: string): int {
    if log == [] then 0
    else
      var e := log[|log| - 1];
      Total(log[..|log| - 1], kind, account) +
      if e.kind == kind && e.payload.account == account then e.payload.amount else 0
  }

  lemma {:induction false} FoldedBalance(cfg: Config<Balances, Entry>, log: seq<Event<Entry>>, account: string)
    requires cfg == LedgerConfig(cfg.digest)
    ensures Balance(Lenient(cfg, log), account) ==
            Total(log, "ledger.credit", account) - Total(log, "ledger.debit", account)
  {
    if log != [] {
      FoldedBalance(cfg, log[..|log| - 1], account);
    }
  }

  /** After any run, merges, imports and failed calls included, an account's balance is its
      credits in the history less its debits, and accounts nothing was booked on read as zero. */
  lemma BalanceIsCreditsLessDebits(digest: Event<Entry> -> string, ops: seq<Op<Balances, Entry>>, account: string)
    ensures var st := Run(LedgerConfig(digest), ops);
            Balance(st.current, account) ==
              Total(st.log, "ledger.credit", account) - Total(st.log, "ledger.debit", account)
  {
    LedgerRun(digest, ops);
    FoldedBalance(LedgerConfig(digest), Run(LedgerConfig(digest), ops).log, account);
  }

  lemma LastTwo(cfg: Config<Balances, Entry>, h: seq<Event<Entry>>, x: Event<Entry>, y: Event<Entry>)
    requires cfg == LedgerConfig(cfg.digest)
    ensures Lenient(cfg, h + [x, y]) == Reduce(Reduce(Lenient(cfg, h), x), y)
  {
    assert h + [x, y] == (h + [x]) + [y];
    assert (h + [x])[..|h|] == h && ((h + [x]) + [y])[..|h| + 1] == h + [x];
  }
}
