/**
 * The thread item pool as a value: what each stretch of modperl_tipool.c between
 * taking and releasing the lock does to the two lists and the counters.
 */
module TipoolSpec {

  /** modperl_tipool_config_t; plain C ints, so nothing is assumed about their signs. */
  datatype Config = Config(start: int, minSpare: int, maxSpare: int, max: int, maxRequests: int)

  /**
   * Items are numbered in the order tipool_sgrow / tipool_rgrow produced them, so an
   * address that malloc hands out twice still names two different items.
   */
  datatype Pool = Pool(
    idle: seq<nat>, busy: seq<nat>, inUse: int, size: int, grown: nat, destroyed: seq<nat>)

  /** What a popping thread leaves the lock with. */
  datatype PopOutcome<T> = Took(item: T) | MustWait | Panic

  const EMPTY := Pool([], [], 0, 0, 0, [])

  /** Drops the first occurrence of x, the way the list walks stop at the first match. */
  function Without(s: seq<nat>, x: nat): seq<nat> {
    if s == [] then []
    else if s[0] == x then s[1..]
    else [s[0]] + Without(s[1..], x)
  }

  /** modperl_tipool_add of a freshly grown item. */
  function Added(p: Pool): Pool {
    p.(idle := p.idle + [p.grown], size := p.size + 1, grown := p.grown + 1)
  }

  /** modperl_tipool_init after n rounds of its loop. */
  function Started(n: nat): Pool {
    if n == 0 then EMPTY else Added(Started(n - 1))
  }

  /** The tail of modperl_tipool_pop: move the head of idle to the end of busy. */
  function Take(p: Pool): (Pool, PopOutcome<nat>) {
    if p.idle == [] then (p, Panic)
    else (p.(idle := p.idle[1..], busy := p.busy + [p.idle[0]], inUse := p.inUse + 1), Took(p.idle[0]))
  }

  /** One test of the modperl_tipool_wait loop: wait again, or fall through to the tail of pop. */
  function Retest(p: Pool): (Pool, PopOutcome<nat>) {
    if p.size == p.inUse then (p, MustWait) else Take(p)
  }

  /** modperl_tipool_pop from taking the lock to its first release (COND_WAIT or unlock). */
  function EnterPop(cfg: Config, canGrow: bool, p: Pool): (Pool, PopOutcome<nat>) {
    Retest(if p.size == p.inUse && p.size < cfg.max && canGrow then Added(p) else p)
  }

  /** The shrink and regrow decision at the end of modperl_tipool_putback_base. */
  function Settle(cfg: Config, canGrow: bool, p: Pool, item: nat, numRequests: int): Pool {
    var tooManySpare := p.size - p.inUse > cfg.maxSpare;
    var wornOut := numRequests > 0 && numRequests > cfg.maxRequests;
    if !tooManySpare && !wornOut then p
    else
      var q := p.(idle := Without(p.idle, item), size := p.size - 1, destroyed := p.destroyed + [item]);
      if wornOut && q.size - q.inUse < cfg.minSpare && canGrow then Added(q) else q
  }

  /** modperl_tipool_putback: given the node, it does not ask whether that was on loan. */
  function PutbackListed(cfg: Config, canGrow: bool, p: Pool, item: nat, numRequests: int): Pool {
    var q := p.(busy := Without(p.busy, item), idle := [item] + p.idle, inUse := p.inUse - 1);
    if q.inUse == cfg.max - 1 then q else Settle(cfg, canGrow, q, item, numRequests)
  }

  /** modperl_tipool_putback_data, the whole locked stretch. */
  function Putback(cfg: Config, canGrow: bool, p: Pool, item: nat, numRequests: int): Pool {
    if item !in p.busy then p else PutbackListed(cfg, canGrow, p, item, numRequests)
  }

  /** modperl_tipool_destroy: every idle item is destroyed, head first. */
  function Destroyed(p: Pool): Pool {
    p.(idle := [], size := p.size - |p.idle|, destroyed := p.destroyed + p.idle)
  }
}
