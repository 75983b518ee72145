/**
 One alert of an endpoint: its configuration, its checksum, and what a single handled result does to it
 (`alerting/alert/alert.go` and the loop bodies of `watchdog/alerting.go`).

 Time is a number of nanoseconds; the Go zero time is ZERO_TIME.
 */
module Alerts {
  import opened Wrappers
  import Strconv

  const MINUTE := 60_000_000_000
  const ZERO_TIME := -62_135_596_800 * 1_000_000_000

  /** The longest time.Duration, at which time.Since saturates. */
  const MAX_DURATION := 0x7fff_ffff_ffff_ffff

  datatype Config = Config(
    kind: string,
    enabled: Option<bool>,
    failureThreshold: int,
    successThreshold: int,
    minimumReminderInterval: int,
    sendOnResolved: Option<bool>,
    description: Option<string>)
  {
    predicate IsEnabled() {
      enabled.None? || enabled.value
    }

    predicate IsSendingOnResolved() {
      sendOnResolved.Some? && sendOnResolved.value
    }

    function Description(): string {
      if description.None? then "" else description.value
    }

    /** What validation guarantees, for an alert type whose name has no underscore (no known type has one). */
    predicate Valid() {
      failureThreshold >= 1 && successThreshold >= 1 && '_' !in kind
    }
  }

  // ---------- checksums ----------

  function FormatBool(b: bool): string {
    if b then "true" else "false"
  }

  /** The text that is hashed. SHA-256 itself is taken to be injective, so this text stands for the checksum. */
  function Checksum(c: Config): string {
    c.kind + "_" +
    (FormatBool(c.IsEnabled()) + "_" +
     (FormatBool(c.IsSendingOnResolved()) + "_" +
      (Strconv.Itoa(c.successThreshold) + "_" +
       (Strconv.Itoa(c.failureThreshold) + "_" +
        c.Description()))))
  }

  lemma FirstUnderscore(a: string, x: string, b: string, y: string)
    requires '_' !in a && '_' !in b
    requires a + "_" + x == b + "_" + y
    ensures a == b && x == y
  {
    var s := a + "_" + x;
    assert s[|a|] == '_' && s[|b|] == '_';
    assert forall i | 0 <= i < |a| :: s[i] == a[i];
    assert forall i | 0 <= i < |b| :: s[i] == b[i];
    assert |a| == |b|;
    assert a == s[..|a|] && b == s[..|b|];
    assert x == s[|a| + 1..] && y == s[|b| + 1..];
  }

  lemma ItoaHasNoUnderscore(n: int)
    ensures '_' !in Strconv.Itoa(n)
  {
    Strconv.ItoaCharacters(n);
  }

  /** Two configurations with one checksum agree on every hashed field. */
  lemma ChecksumDeterminesConfig(c: Config, d: Config)
    requires '_' !in c.kind && '_' !in d.kind
    requires Checksum(c) == Checksum(d)
    ensures c.kind == d.kind && c.IsEnabled() == d.IsEnabled()
    ensures c.IsSendingOnResolved() == d.IsSendingOnResolved()
    ensures c.successThreshold == d.successThreshold && c.failureThreshold == d.failureThreshold
    ensures c.Description() == d.Description()
  {
    var c5, d5 :=
      Strconv.Itoa(c.failureThreshold) + "_" + c.Description(),
      Strconv.Itoa(d.failureThreshold) + "_" + d.Description();
    var c4, d4 := Strconv.Itoa(c.successThreshold) + "_" + c5, Strconv.Itoa(d.successThreshold) + "_" + d5;
    var c3, d3 := FormatBool(c.IsSendingOnResolved()) + "_" + c4, FormatBool(d.IsSendingOnResolved()) + "_" + d4;
    var c2, d2 := FormatBool(c.IsEnabled()) + "_" + c3, FormatBool(d.IsEnabled()) + "_" + d3;
    FirstUnderscore(c.kind, c2, d.kind, d2);
    FirstUnderscore(FormatBool(c.IsEnabled()), c3, FormatBool(d.IsEnabled()), d3);
    FirstUnderscore(FormatBool(c.IsSendingOnResolved()), c4, FormatBool(d.IsSendingOnResolved()), d4);
    ItoaHasNoUnderscore(c.successThreshold);
    ItoaHasNoUnderscore(d.successThreshold);
    FirstUnderscore(Strconv.Itoa(c.successThreshold), c5, Strconv.Itoa(d.successThreshold), d5);
    ItoaHasNoUnderscore(c.failureThreshold);
    ItoaHasNoUnderscore(d.failureThreshold);
    FirstUnderscore(Strconv.Itoa(c.failureThreshold), c.Description(),
                    Strconv.Itoa(d.failureThreshold), d.Description());
    Strconv.ItoaInjective(c.successThreshold, d.successThreshold);
    Strconv.ItoaInjective(c.failureThreshold, d.failureThreshold);
    assert FormatBool(true)[0] != FormatBool(false)[0];
  }

  /** What an alert's row depends on: not on its reminder interval, and not on whether a default is written out. */
  ghost predicate SameHashedFields(c: Config, d: Config) {
    && c.kind == d.kind && (c.enabled == Some(false) <==> d.enabled == Some(false))
    && (c.sendOnResolved == Some(true) <==> d.sendOnResolved == Some(true))
    && c.successThreshold == d.successThreshold && c.failureThreshold == d.failureThreshold
    && (if c.description.None? then "" else c.description.value) ==
      (if d.description.None? then "" else d.description.value)
  }

  lemma ChecksumIff(c: Config, d: Config)
    requires '_' !in c.kind && '_' !in d.kind
    ensures Checksum(c) == Checksum(d) <==> SameHashedFields(c, d)
  {
    if Checksum(c) == Checksum(d) {
      ChecksumDeterminesConfig(c, d);
    }
  }

  // ---------- one alert, one handled result ----------

  /** The fields of an alert that change while the program runs. */
  datatype AlertState = AlertState(triggered: bool, resolveKey: string)

  /**
   What the surroundings do while one alert is looked at: the clock when the reminder is checked and after
   sending, whether a provider is configured, whether its Send returned without error and the resolve key it
   left on the alert, and whether the record store accepted the write.
   */
  datatype Env = Env(checkedAt: int, provider: bool, sent: bool, resolveKey: string, sentAt: int, stored: bool)

  /** What was announced: Resolved also covers an alert that does not send on resolution. */
  datatype Notice = Silent | Initial | Reminder | Resolved

  datatype Write = Keep | Upsert | Delete

  datatype Outcome = Outcome(state: AlertState, notice: Notice, write: Write)

  /** The body of the loop of handleAlertsToTrigger, for one alert. */
  function TriggerOne(c: Config, a: AlertState, failures: int, reference: int, e: Env): Outcome {
    if !c.IsEnabled() || c.failureThreshold > failures then
      Outcome(a, Silent, Keep)
    else
      var sendInitial := !a.triggered;
      var sendReminder :=
        a.triggered && c.minimumReminderInterval > 0 && e.checkedAt - reference >= c.minimumReminderInterval;
      if (!sendInitial && !sendReminder) || !e.provider then
        Outcome(a, Silent, Keep)
      else if !e.sent then
        Outcome(a.(resolveKey := e.resolveKey), Silent, Keep)
      else
        Outcome(AlertState(true, e.resolveKey), if sendInitial then Initial else Reminder, Upsert)
  }

  /** The body of the loop of handleAlertsToResolve, for one alert. */
  function ResolveOne(c: Config, a: AlertState, successes: int, e: Env): Outcome {
    var stillBelow := c.successThreshold > successes;
    if !c.IsEnabled() || !a.triggered then
      Outcome(a, Silent, Keep)
    else if stillBelow then
      Outcome(a, Silent, Upsert)
    else
      Outcome(AlertState(false, if c.IsSendingOnResolved() && e.provider then e.resolveKey else a.resolveKey),
        Resolved, Delete)
  }

  // ---------- the record store ----------

  datatype RecordId = RecordId(endpointKey: string, checksum: string)

  datatype Record = Record(resolveKey: string, successes: int)

  type Records = map<RecordId, Record>

  function Put(rows: Records, id: RecordId, a: AlertState, successes: int): Records {
    rows[id := Record(a.resolveKey, successes)]
  }

  function Drop(rows: Records, id: RecordId): Records {
    rows - {id}
  }

  /** DeleteAllTriggeredAlertsNotInChecksumsByEndpoint. */
  function Prune(rows: Records, endpointKey: string, checksums: seq<string>): Records {
    map id | id in rows && (id.endpointKey == endpointKey ==> id.checksum in checksums) :: rows[id]
  }
}
