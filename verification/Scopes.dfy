/** Which scope a handle declares, and the runtime parameters its connections are born with (scoped.go,
    postgres.go). */
module Scopes {
  import opened Basics

  type Key = string

  const TENANT_PARAM := "hausv.tenant_id"
  const CROSS_TENANT_PARAM := "hausv.cross_tenant"
  const CROSS_TENANT_ON := "on"
  const TENANT_SENTINEL := "-"

  datatype Handle = ProcessPool | Scoped(key: Key, param: string, value: string)

  /** `validULID`: 26 characters of Crockford's alphabet, the first at most '7'. */
  predicate ValidULID(value: string) {
    && |value| == 26 && value[0] <= '7'
    && forall i :: 0 <= i < |value| ==> value[i] in "0123456789ABCDEFGHJKMNPQRSTVWXYZ"
  }

  /** Crockford's digits: no I, L, O or U. */
  predicate IsCrockford(c: char) {
    '0' <= c <= '9' || ('A' <= c <= 'Z' && c !in {'I', 'L', 'O', 'U'})
  }

  /** The value of a digit, counting the letters that are none out. */
  function DigitValue(c: char): nat
    requires IsCrockford(c)
  {
    if c <= '9' then c as int - '0' as int
    else 10 + c as int - 'A' as int
         - (if c > 'I' then 1 else 0) - (if c > 'L' then 1 else 0)
         - (if c > 'O' then 1 else 0) - (if c > 'U' then 1 else 0)
  }

  function Pow32(n: nat): nat {
    if n == 0 then 1 else 32 * Pow32(n - 1)
  }

  /** The number that a text of Crockford's digits denotes. */
  function Number(s: string): nat
    requires forall i :: 0 <= i < |s| ==> IsCrockford(s[i])
  {
    if s == "" then 0 else DigitValue(s[0]) * Pow32(|s| - 1) + Number(s[1..])
  }

  lemma AlphabetIsCrockford(c: char)
    ensures c in "0123456789ABCDEFGHJKMNPQRSTVWXYZ" <==> IsCrockford(c)
  {
    var digits, start, middle, end := "0123456789", "ABCDEFGH", "JKMN", "PQRSTVWXYZ";
    assert "0123456789ABCDEFGHJKMNPQRSTVWXYZ" == digits + start + middle + end;
    DecimalDigits(c);
    FirstLetters(c);
    MiddleLetters(c);
    LastLetters(c);
  }

  lemma DecimalDigits(c: char)
    ensures c in "0123456789" <==> '0' <= c <= '9'
  {
  }

  lemma FirstLetters(c: char)
    ensures c in "ABCDEFGH" <==> 'A' <= c <= 'H'
  {
  }

  lemma MiddleLetters(c: char)
    ensures c in "JKMN" <==> 'J' <= c <= 'N' && c != 'L'
  {
  }

  lemma LastLetters(c: char)
    ensures c in "PQRSTVWXYZ" <==> 'P' <= c <= 'Z' && c != 'U'
  {
  }

  lemma {:induction false} NumberBound(s: string)
    requires forall i :: 0 <= i < |s| ==> IsCrockford(s[i])
    ensures Number(s) < Pow32(|s|)
  {
    if s != "" {
      NumberBound(s[1..]);
      DigitTimes(DigitValue(s[0]), 31, Pow32(|s| - 1));
    }
  }

  lemma DigitTimes(d: nat, e: nat, p: nat)
    requires d <= e
    ensures d * p <= e * p
  {
  }

  lemma LeadingDigit(s: string)
    requires |s| == 26 && forall i :: 0 <= i < |s| ==> IsCrockford(s[i])
    ensures s[0] <= '7' <==> Number(s) < 0x1_0000_0000_0000_0000_0000_0000_0000_0000
  {
    NumberBound(s[1..]);
    Pow32Of25();
    assert s[0] <= '7' <==> DigitValue(s[0]) <= 7;
    assert Number(s) == DigitValue(s[0]) * Pow32(25) + Number(s[1..]);
    hide Pow32, DigitValue, Number;
    Eightfold(DigitValue(s[0]), Pow32(25), Number(s[1..]));
  }

  lemma Pow32Of25()
    ensures 8 * Pow32(25) == 0x1_0000_0000_0000_0000_0000_0000_0000_0000
  {
    assert Pow32(5) == 0x200_0000;
    assert Pow32(10) == 0x4_0000_0000_0000;
    assert Pow32(15) == 0x800_0000_0000_0000_0000;
    assert Pow32(20) == 0x10_0000_0000_0000_0000_0000_0000;
  }

  lemma Eightfold(d: nat, p: nat, rest: nat)
    requires rest < p
    ensures d <= 7 <==> d * p + rest < 8 * p
  {
    if d <= 7 { DigitTimes(d, 7, p); } else { DigitTimes(8, d, p); }
  }

  /** A usable tenant is a 128-bit number in 26 of Crockford's digits. */
  lemma ULIDsAre128Bits(s: string)
    ensures ValidULID(s) <==>
              && |s| == 26 && (forall i :: 0 <= i < |s| ==> IsCrockford(s[i]))
              && Number(s) < 0x1_0000_0000_0000_0000_0000_0000_0000_0000
  {
    hide IsCrockford;
    forall i | 0 <= i < |s| ensures s[i] in "0123456789ABCDEFGHJKMNPQRSTVWXYZ" <==> IsCrockford(s[i]) {
      AlphabetIsCrockford(s[i]);
    }
    if |s| == 26 && forall i :: 0 <= i < |s| ==> IsCrockford(s[i]) { LeadingDigit(s); }
    hide Number;
  }

  function For(postgres: bool, tenantID: string): Handle {
    if !postgres then ProcessPool
    else
      var value := if ValidULID(tenantID) then tenantID else TENANT_SENTINEL;
      Scoped("t:" + value, TENANT_PARAM, value)
  }

  function Unscoped(postgres: bool): Handle {
    if !postgres then ProcessPool else Scoped("x", CROSS_TENANT_PARAM, CROSS_TENANT_ON)
  }

  ghost predicate IsHandle(h: Handle) {
    h.Scoped? && (h == Unscoped(true) || exists tenantID :: h == For(true, tenantID))
  }

  /** On SQLite there is one pool for all. On PostgreSQL a tenant's handle declares that tenant, or the sentinel
      that matches no row where it is unusable; the maintenance handle declares the cross-tenant switch; and
      neither declares the other's parameter. */
  lemma HandlesDeclare(tenantID: string)
    ensures For(false, tenantID) == ProcessPool && Unscoped(false) == ProcessPool
    ensures var h := For(true, tenantID);
            h.Scoped? && h.param == "hausv.tenant_id" && h.value == if ValidULID(tenantID) then tenantID else "-"
    ensures var h := Unscoped(true); h.Scoped? && h.param == "hausv.cross_tenant" && h.value == "on"
    ensures For(true, tenantID).param != Unscoped(true).param
  {
    assert |TENANT_PARAM| != |CROSS_TENANT_PARAM|;
  }

  /** Two tenants share a key exactly when they are the same or both unusable, and no tenant, usable or
      not, shares the maintenance lane's. */
  lemma KeysSeparateScopes(a: string, b: string)
    ensures For(true, a).key == For(true, b).key <==> a == b || (!ValidULID(a) && !ValidULID(b))
    ensures For(true, a).key != Unscoped(true).key
    ensures For(true, a).value == TENANT_SENTINEL <==> !ValidULID(a)
  {
    var x, y := For(true, a), For(true, b);
    assert x.key[2..] == x.value && y.key[2..] == y.value;
    assert |x.key| == 2 + |x.value| && |Unscoped(true).key| == 1;
  }

  /** So the key alone tells what a lane may see. */
  lemma KeyTellsScope(g: Handle, h: Handle)
    requires IsHandle(g) && IsHandle(h) && g.key == h.key
    ensures g == h
  {
    if g == Unscoped(true) {
      if a :| h == For(true, a) { KeysSeparateScopes(a, a); }
    } else {
      var a :| g == For(true, a);
      KeysSeparateScopes(a, a);
      var b :| h == For(true, b);
      KeysSeparateScopes(a, b);
    }
  }

  /** A Go map is a reference: two holders of it see each other's writes. */
  class ParamMap {
    var entries: map<string, string>

    constructor ()
      ensures entries == map[]
    {
      entries := map[];
    }
  }

  /** The loop of `laneConfig` and `postgresConnConfig`: a new map with the entries of `base`, plus one. */
  method CopyWith(base: ParamMap, param: string, value: string) returns (params: ParamMap)
    ensures fresh(params)
    ensures params.entries == base.entries[param := value]
  {
    params := new ParamMap();
    var rest := base.entries.Keys;
    while rest != {}
      invariant rest <= base.entries.Keys
      invariant params.entries.Keys == base.entries.Keys - rest
      invariant forall name :: name in params.entries ==> params.entries[name] == base.entries[name]
      decreases |rest|
    {
      var name :| name in rest;
      params.entries := params.entries[name := base.entries[name]];
      rest := rest - {name};
    }
    params.entries := params.entries[param := value];
  }

  // ----- Tuning defaults

  const SECOND := 1_000_000_000

  datatype Config = Config(
    connectTimeout: int, statementTimeout: int, maxOpenConns: int, maxIdleConns: int,
    connMaxLifetime: int, connMaxIdleTime: int, laneCap: int, laneMaxConns: int)

  function Positive(value: int, fallback: int): int {
    if value <= 0 then fallback else value
  }

  /** Limits that were all set, and fit together. */
  predicate WellSet(c: Config) {
    && c.connectTimeout > 0 && c.statementTimeout > 0 && c.connMaxLifetime > 0 && c.connMaxIdleTime > 0
    && 0 < c.maxIdleConns <= c.maxOpenConns && c.laneCap > 0 && c.laneMaxConns > 0
  }

  /** Every limit is positive whatever was configured, and idle never exceeds open. */
  function Defaulted(c: Config): (d: Config)
    ensures WellSet(d)
  {
    var open := Positive(c.maxOpenConns, 20);
    Config(Positive(c.connectTimeout, 5 * SECOND), Positive(c.statementTimeout, 30 * SECOND),
           open, Min(Positive(c.maxIdleConns, open), open),
           Positive(c.connMaxLifetime, 1800 * SECOND), Positive(c.connMaxIdleTime, 300 * SECOND),
           Positive(c.laneCap, 24), Positive(c.laneMaxConns, 3))
  }

  /** Whatever was set stays, and whatever was not gets its default; only more idle than open connections are cut. */
  lemma DefaultsFillBlanks(c: Config)
    ensures var d := Defaulted(c);
            && d.connectTimeout == (if c.connectTimeout > 0 then c.connectTimeout else 5_000_000_000)
            && d.statementTimeout == (if c.statementTimeout > 0 then c.statementTimeout else 30_000_000_000)
            && d.maxOpenConns == (if c.maxOpenConns > 0 then c.maxOpenConns else 20)
            && d.connMaxLifetime == (if c.connMaxLifetime > 0 then c.connMaxLifetime else 1_800_000_000_000)
            && d.connMaxIdleTime == (if c.connMaxIdleTime > 0 then c.connMaxIdleTime else 300_000_000_000)
            && d.laneCap == (if c.laneCap > 0 then c.laneCap else 24)
            && d.laneMaxConns == (if c.laneMaxConns > 0 then c.laneMaxConns else 3)
            && (0 < c.maxIdleConns <= d.maxOpenConns ==> d.maxIdleConns == c.maxIdleConns)
            && (c.maxIdleConns <= 0 || c.maxIdleConns > d.maxOpenConns ==> d.maxIdleConns == d.maxOpenConns)
  {
  }

  /** Defaulting twice, as a lane's config is, changes nothing more: lanes are tuned like the process pool.
      Limits that were set consistently are kept. */
  lemma DefaultsAreStable(c: Config)
    ensures Defaulted(Defaulted(c)) == Defaulted(c)
    ensures Defaulted(c) == c <==> WellSet(c)
  {
  }

  /** The config a pointer refers to. */
  class ConfigCell {
    var config: Config

    constructor (c: Config)
      ensures config == c
    {
      config := c;
    }

    method DefaultTimeouts()
      modifies this
      ensures config == old(config).(
                connectTimeout := Defaulted(old(config)).connectTimeout,
                statementTimeout := Defaulted(old(config)).statementTimeout)
    {
      if config.connectTimeout <= 0 { config := config.(connectTimeout := 5 * SECOND); }
      if config.statementTimeout <= 0 { config := config.(statementTimeout := 30 * SECOND); }
    }

    method DefaultPool()
      modifies this
      ensures config == old(config).(
                maxOpenConns := Defaulted(old(config)).maxOpenConns,
                maxIdleConns := Defaulted(old(config)).maxIdleConns)
    {
      if config.maxOpenConns <= 0 { config := config.(maxOpenConns := 20); }
      if config.maxIdleConns <= 0 { config := config.(maxIdleConns := config.maxOpenConns); }
      if config.maxIdleConns > config.maxOpenConns { config := config.(maxIdleConns := config.maxOpenConns); }
    }

    /** `applyPostgresDefaults` writes through its pointer, one field after the other. A second call, as a
        lane's config gets one, finds nothing to do. */
    method ApplyPostgresDefaults()
      modifies this
      ensures config == Defaulted(old(config)) == Defaulted(config)
      ensures config == old(config) <==> WellSet(old(config))
    {
      DefaultsAreStable(config);
      DefaultTimeouts();
      DefaultPool();
      if config.connMaxLifetime <= 0 { config := config.(connMaxLifetime := 1800 * SECOND); }
      if config.connMaxIdleTime <= 0 { config := config.(connMaxIdleTime := 300 * SECOND); }
      if config.laneCap <= 0 { config := config.(laneCap := 24); }
      if config.laneMaxConns <= 0 { config := config.(laneMaxConns := 3); }
    }
  }
}
