/** Alert decisions: which rules an event fires, under which key, and the ledger that remembers them. */
module Alerting {
  import opened Wrappers
  import opened Keys
  import opened Incidents

  datatype Channel = Channel(target: string, enabled: bool)

  /** A rule; no site means every site. */
  datatype Rule = Rule(site: Option<string>, channelId: int, kind: Kind, enabled: bool, confirmAfter: int)

  /** The alert tables an admin edits. Rules stand in id order. */
  datatype Config = Config(channels: map<int, Channel>, rules: seq<Rule>)

  /** A transition handed to the dispatcher, with the site fields alerting reads. */
  datatype Event = Event(site: string, warnDays: int, tr: Transition)

  /** What a ledger row claims; `incidentId` is NULL when the transition carried 0. */
  datatype Claim = Claim(key: string, site: string, kind: Kind, channelId: int, incidentId: Option<int>)

  const DEFAULT_SSL_WARN_DAYS := 14
  const SECONDS_PER_DAY := 86400

  // --- choosing rules ---

  predicate Applies(cfg: Config, r: Rule, site: string, kind: Kind) {
    && r.kind == kind && r.enabled
    && r.channelId in cfg.channels && cfg.channels[r.channelId].enabled
    && (r.site.None? || r.site.value == site)
  }

  function Selected(cfg: Config, rules: seq<Rule>, site: string, kind: Kind): (rs: seq<Rule>)
    ensures forall r :: r in rs <==> r in rules && Applies(cfg, r, site, kind)
  {
    if rules == [] then []
    else (if Applies(cfg, rules[0], site, kind) then [rules[0]] else []) + Selected(cfg, rules[1..], site, kind)
  }

  /** Enabled rules of a kind for a site, on enabled channels, in id order. */
  function RulesFor(cfg: Config, site: string, kind: Kind): (rs: seq<Rule>)
    ensures forall r :: r in rs <==> r in cfg.rules && Applies(cfg, r, site, kind)
  {
    Selected(cfg, cfg.rules, site, kind)
  }

  /**
   * A rule is considered exactly when it is of the kind, enabled, on an enabled channel, and for this site or for every one:
   * a disabled rule, a disabled channel or another site's rule claims nothing.
   */
  lemma {:induction false} RulesForIff(cfg: Config, site: string, kind: Kind, r: Rule)
    ensures r in RulesFor(cfg, site, kind) <==>
      && r in cfg.rules && r.kind == kind && r.enabled
      && r.channelId in cfg.channels && cfg.channels[r.channelId].enabled
      && (r.site.None? || r.site.value == site)
  {
  }

  lemma {:induction false} SelectedSnoc(cfg: Config, a: seq<Rule>, r: Rule, site: string, kind: Kind)
    ensures Selected(cfg, a + [r], site, kind) == Selected(cfg, a, site, kind) + if Applies(cfg, r, site, kind) then [r] else []
  {
    var all := a + [r];
    if a == [] {
      assert all == [r] && [r][1..] == [] && Selected(cfg, [], site, kind) == [];
    } else {
      assert all[0] == a[0] && all[1..] == a[1..] + [r];
      SelectedSnoc(cfg, a[1..], r, site, kind);
      var first := if Applies(cfg, a[0], site, kind) then [a[0]] else [];
      assert Selected(cfg, all, site, kind) == first + Selected(cfg, a[1..] + [r], site, kind);
    }
  }

  /** Rules are considered one by one, each once, in their order. */
  lemma {:induction false} SelectedInOrder(cfg: Config, a: seq<Rule>, r: Rule, site: string, kind: Kind)
    ensures Selected(cfg, a + [r], site, kind) == Selected(cfg, a, site, kind) +
      if r.kind == kind && r.enabled && r.channelId in cfg.channels && cfg.channels[r.channelId].enabled && (r.site.None? || r.site.value == site)
      then [r] else []
    ensures Selected(cfg, [], site, kind) == []
  {
    SelectedSnoc(cfg, a, r, site, kind);
  }

  function KindsFor(tr: Transition): (kinds: seq<Kind>) {
    (if !tr.up && tr.consecutiveFailures > 0 then [SiteDown] else []) +
    (if tr.incidentResolved then [SiteRecovered] else []) +
    (if tr.sslChecked && tr.sslExpiresAt > 0 then [SslExpiring] else [])
  }

  // --- firing ---

  /** The failure count at which a rule fires. */
  function Confirm(r: Rule): int { if r.confirmAfter < 1 then 1 else r.confirmAfter }

  function WarnDays(e: Event): int { if e.warnDays <= 0 then DEFAULT_SSL_WARN_DAYS else e.warnDays }

  /** Whole days left, truncated toward zero like a Go int conversion. */
  function DaysLeft(expiresAt: int, now: int): int {
    if expiresAt >= now then (expiresAt - now) / SECONDS_PER_DAY else -((now - expiresAt) / SECONDS_PER_DAY)
  }

  /** The ledger key's number field: the transition's incident id, or the certificate expiry. */
  function KeyNumber(e: Event, kind: Kind): int {
    if kind == SslExpiring then e.tr.sslExpiresAt else e.tr.incidentId
  }

  /** `render`: the key if the rule fires. `announced` is what the ledger lookup answered, read only for recoveries. */
  function Render(e: Event, kind: Kind, rule: Rule, now: int, announced: bool): (key: Option<string>) {
    match kind
    case SiteDown =>
      if e.tr.consecutiveFailures != Confirm(rule) then None
      else Some(DedupeKey(SiteDown, e.site, e.tr.incidentId, rule.channelId))
    case SiteRecovered =>
      if !announced then None
      else Some(DedupeKey(SiteRecovered, e.site, e.tr.incidentId, rule.channelId))
    case SslExpiring =>
      if DaysLeft(e.tr.sslExpiresAt, now) > WarnDays(e) then None
      else Some(DedupeKey(SslExpiring, e.site, e.tr.sslExpiresAt, rule.channelId))
  }

  /** A down rule fires on exactly the tick at which the failures in a row reach its `confirm_after`, or 1 if that is less. */
  lemma {:induction false} DownFiresIff(e: Event, rule: Rule, now: int, announced: bool)
    ensures Render(e, SiteDown, rule, now, announced).Some? <==>
      e.tr.consecutiveFailures == if rule.confirmAfter < 1 then 1 else rule.confirmAfter
  {
  }

  /** The key a recovery looks up. */
  function DownKey(e: Event, rule: Rule): string { DedupeKey(SiteDown, e.site, e.tr.incidentId, rule.channelId) }

  function ClaimOf(e: Event, kind: Kind, rule: Rule, key: string): Claim {
    Claim(key, e.site, kind, rule.channelId, if e.tr.incidentId != 0 then Some(e.tr.incidentId) else None)
  }

  /** A certificate alert fires while less than `warn + 1` whole days are left: up to a day before the documented window. */
  lemma {:induction false} SslFiresWithin(e: Event, rule: Rule, now: int)
    ensures Render(e, SslExpiring, rule, now, false).Some? <==>
            e.tr.sslExpiresAt - now < ((if e.warnDays <= 0 then 14 else e.warnDays) + 1) * 86400
  {
    var left := e.tr.sslExpiresAt - now;
    if left >= 0 {
      var d := left / SECONDS_PER_DAY;
      assert d * SECONDS_PER_DAY <= left < (d + 1) * SECONDS_PER_DAY;
    }
  }

  // --- the ledger of claims ---

  predicate Claimed(claims: seq<Claim>, key: string) { exists c | c in claims :: c.key == key }

  /** The UNIQUE index on `dedupe_key`. */
  ghost predicate UniqueKeys(claims: seq<Claim>) {
    forall i, j | 0 <= i < j < |claims| :: claims[i].key != claims[j].key
  }

  /** The insert of `ClaimDelivery`: it adds a row or hits the index. */
  function Insert(claims: seq<Claim>, c: Claim): (claims': seq<Claim>) {
    if Claimed(claims, c.key) then claims else claims + [c]
  }

  /** Keys stay unique, and the key is claimed afterwards whether or not it was. */
  lemma {:induction false} InsertKeepsKeysUnique(claims: seq<Claim>, c: Claim)
    requires UniqueKeys(claims)
    ensures UniqueKeys(Insert(claims, c))
    ensures forall k :: Claimed(Insert(claims, c), k) <==> Claimed(claims, k) || k == c.key
  {
    assert c in claims + [c];
  }

  /** One rule applied with nothing else running. */
  function AppliedRule(claims: seq<Claim>, e: Event, kind: Kind, rule: Rule, now: int): seq<Claim> {
    var key := Render(e, kind, rule, now, Claimed(claims, DownKey(e, rule)));
    if key.None? then claims else Insert(claims, ClaimOf(e, kind, rule, key.value))
  }

  function AppliedRules(claims: seq<Claim>, e: Event, kind: Kind, rules: seq<Rule>, now: int): seq<Claim>
    decreases |rules|
  {
    if rules == [] then claims
    else AppliedRules(AppliedRule(claims, e, kind, rules[0], now), e, kind, rules[1..], now)
  }

  function HandledKinds(claims: seq<Claim>, cfg: Config, e: Event, kinds: seq<Kind>, now: int): seq<Claim>
    decreases |kinds|
  {
    if kinds == [] then claims
    else HandledKinds(AppliedRules(claims, e, kinds[0], RulesFor(cfg, e.site, kinds[0]), now), cfg, e, kinds[1..], now)
  }

  /** The ledger after one event is handled with nothing else running. */
  function Handled(claims: seq<Claim>, cfg: Config, e: Event, now: int): seq<Claim> {
    HandledKinds(claims, cfg, e, KindsFor(e.tr), now)
  }
}
