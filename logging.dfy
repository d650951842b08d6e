/** The per-name log level registry of internal/logging/logging.go. Each
    logger name owns one shared, mutable level; a name that was never
    registered reads as Info. Locking is left out: every call runs alone. */
module Logging {

  /** zapcore's levels, least severe first. */
  datatype Level = Debug | Info | Warn | Error | DPanic | Panic | Fatal

  /** zap.AtomicLevel: a level shared by every holder of it and changed in
      place. */
  class AtomicLevel {
    var level: Level

    constructor (level: Level)
      ensures this.level == level
    {
      this.level := level;
    }

    method SetLevel(level: Level)
      modifies this
      ensures this.level == level
    {
      this.level := level;
    }
  }

  class LevelSetter {
    var levelers: map<string, AtomicLevel>

    /** Every name has a level of its own. */
    ghost predicate Valid()
      reads this
    {
      forall a, b | a in levelers && b in levelers && a != b :: levelers[a] != levelers[b]
    }

    constructor ()
      ensures Valid() && levelers == map[]
      ensures forall name :: GetLevel(name) == Info
    {
      levelers := map[];
    }

    /** GetLevel: the registered level of the name, Info when there is none. */
    function GetLevel(name: string): (level: Level)
      reads this, levelers.Values
      ensures name !in levelers ==> level == Info
    {
      if name in levelers then levelers[name].level else Info
    }

    /** setLevel: the name gets an entry only when it has none; the existing
        entry is updated in place, so every holder of it sees the new level.
        Returns the name's entry. */
    method SetLevelOf(name: string, level: Level) returns (entry: AtomicLevel)
      requires Valid()
      modifies this, levelers.Values
      ensures Valid()
      ensures levelers.Keys == old(levelers).Keys + {name}
      ensures entry == levelers[name] && entry.level == level
      ensures name in old(levelers) ==> entry == old(levelers)[name]
      ensures name !in old(levelers) ==> fresh(entry)
      ensures forall other | other in old(levelers) && other != name ::
                levelers[other] == old(levelers)[other] && levelers[other].level == old(levelers[other].level)
      ensures GetLevel(name) == level
      ensures forall other | other != name :: GetLevel(other) == old(GetLevel(other))
    {
      if name !in levelers {
        var created := new AtomicLevel(level);
        levelers := levelers[name := created];
      }
      entry := levelers[name];
      entry.SetLevel(level);
    }

    /** SetLevel: setLevel with the entry dropped. */
    method SetLevel(name: string, level: Level)
      requires Valid()
      modifies this, levelers.Values
      ensures Valid()
      ensures levelers.Keys == old(levelers).Keys + {name}
      ensures GetLevel(name) == level
      ensures forall other | other != name :: GetLevel(other) == old(GetLevel(other))
    {
      var _ := SetLevelOf(name, level);
    }

    /** New's level handling: a new logger for the name resets its level to
        Info and is built on the name's entry. Building the logger is left
        out. */
    method New(name: string) returns (entry: AtomicLevel)
      requires Valid()
      modifies this, levelers.Values
      ensures Valid()
      ensures name in levelers && entry == levelers[name] && entry.level == Info
      ensures GetLevel(name) == Info
      ensures forall other | other != name :: GetLevel(other) == old(GetLevel(other))
    {
      entry := SetLevelOf(name, Info);
    }
  }
}
