/**
 * The per-user log: a map from unpadded date keys to a status. An absent key
 * is an unmarked day. Days are changed only by the confirmed toggle.
 */
module StreakLog {
  import opened CivilCalendar
  import opened DateKeys

  datatype Status = Success | Relapse

  type Log = map<string, Status>

  /** `streakData[key] === "relapse"` for the key of day `d`. */
  predicate Relapsed(log: Log, d: Date) {
    FormatKey(d) in log && log[FormatKey(d)] == Relapse
  }

  /** The status a toggle writes: a relapse becomes a success, anything else a relapse. */
  function Flip(log: Log, key: string): Status {
    if key in log && log[key] == Relapse then Success else Relapse
  }

  /** `{...streakData, [key]: flipped}`. */
  function Toggled(log: Log, key: string): (r: Log)
    ensures r.Keys == log.Keys + {key}
  {
    log[key := Flip(log, key)]
  }

  function RelapseKeys(log: Log): set<string> {
    set k | k in log && log[k] == Relapse
  }

  /** `Object.values(streakData).filter(v => v === "relapse").length`. */
  function RelapseCount(log: Log): (n: nat)
    ensures n <= |log|
  {
    assert RelapseKeys(log) <= log.Keys;
    SubsetCardinality(RelapseKeys(log), log.Keys);
    |RelapseKeys(log)|
  }

  lemma {:induction false} SubsetCardinality<T>(a: set<T>, b: set<T>)
    requires a <= b
    ensures |a| <= |b|
    decreases |b|
  {
    if a != {} {
      var x :| x in a;
      SubsetCardinality(a - {x}, b - {x});
    }
  }

  /** A toggle changes the entry under its key and no other. */
  lemma ToggleChangesOnlyKey(log: Log, key: string, k: string)
    ensures k in Toggled(log, key)
    ==> (k == key ==> (Toggled(log, key)[k] == Relapse <==> !(key in log && log[key] == Relapse)))
    ensures k != key ==> (k in Toggled(log, key) <==> k in log)
    ensures k != key && k in log ==> Toggled(log, key)[k] == log[k]
  {
  }

  /** Toggling a marked day twice restores it; toggling an unmarked day twice leaves it a success. */
  lemma ToggleTwice(log: Log, key: string)
    ensures key in log ==> Toggled(Toggled(log, key), key) == log
    ensures key !in log ==> Toggled(Toggled(log, key), key) == log[key := Success]
  {
    if key in log {
      assert Toggled(Toggled(log, key), key) == log[key := log[key]];
    }
  }

  /** A toggle removes its key from the relapse keys, or adds it. */
  lemma RelapseKeysAfterToggle(log: Log, key: string)
    ensures var before := RelapseKeys(log);
      RelapseKeys(Toggled(log, key)) == if key in before then before - {key} else before + {key}
  {
    var before, after := RelapseKeys(log), RelapseKeys(Toggled(log, key));
    var expected := if key in before then before - {key} else before + {key};
    forall k
      ensures k in after <==> k in expected
    {
      if k != key {
        assert k in after <==> k in before;
      }
    }
  }

  /** A toggle moves the relapse total by exactly one, in the direction of the flip. */
  lemma RelapseCountAfterToggle(log: Log, key: string)
    ensures key in log && log[key] == Relapse ==> RelapseCount(Toggled(log, key)) == RelapseCount(log) - 1
    ensures !(key in log && log[key] == Relapse) ==> RelapseCount(Toggled(log, key)) == RelapseCount(log) + 1
  {
    RelapseKeysAfterToggle(log, key);
  }

  /** Toggling day `d` flips whether `d` is a relapse and leaves every other day as it was. */
  lemma ToggleDay(log: Log, d: Date, e: Date)
    requires ValidDate(d) && ValidDate(e)
    ensures Relapsed(Toggled(log, FormatKey(d)), e) == if e == d then !Relapsed(log, d) else Relapsed(log, e)
  {
    FormatKeyInjective(d, e);
  }
}
