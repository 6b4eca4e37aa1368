/** The lifecycle classification of one fire, as pure comparisons of its
    `invalid` flag and its inactivity `inactive = t - t_ed` (in half-days)
    against the growth window `maxOffDays` and the death window `limOffDays`. */
module Lifecycle {
  import opened FireConsts

  /** Still growing: not invalidated and new pixels within the growth window. */
  predicate IsActive(invalid: bool, inactive: int, c: Config) {
    !invalid && inactive <= c.maxOffDays
  }

  /** Invalidated, or no new pixels for longer than the death window. */
  predicate IsDead(invalid: bool, inactive: int, c: Config) {
    invalid || inactive > c.limOffDays
  }

  /** A sleeper: past the growth window but within the death window. */
  predicate MayReactivate(invalid: bool, inactive: int, c: Config) {
    !invalid && c.maxOffDays < inactive <= c.limOffDays
  }

  /** The current step is the ignition step. */
  predicate IsIgnition(t: int, tSt: int) {
    t == tSt
  }

  /** The four lifecycle states of a fire; `Dead` is the dead fire that was
      not invalidated. */
  datatype Phase = Active | Sleeper | Dead | Invalid

  /** The single state a fire is in. That it is well defined is the partition
      property: with a valid configuration exactly one state matches the
      three predicates above. */
  function PhaseOf(invalid: bool, inactive: int, c: Config): (p: Phase)
    requires c.Valid()
    ensures p == Active <==> IsActive(invalid, inactive, c)
    ensures p == Sleeper <==> MayReactivate(invalid, inactive, c)
    ensures p == Invalid <==> invalid
    ensures (p == Dead || p == Invalid) <==> IsDead(invalid, inactive, c)
  {
    if invalid then Invalid
    else if inactive <= c.maxOffDays then Active
    else if inactive <= c.limOffDays then Sleeper
    else Dead
  }

  /** No fire is both active and a sleeper, whatever the configuration. */
  lemma ActiveNotSleeper(invalid: bool, inactive: int, c: Config)
    ensures !(IsActive(invalid, inactive, c) && MayReactivate(invalid, inactive, c))
  {
  }

  /** With a valid configuration, dead means neither active nor a sleeper;
      this is what makes the collection's `deadfires` view (defined as "not
      active and not a sleeper") the set of fires that are `isdead`. */
  lemma DeadIsRest(invalid: bool, inactive: int, c: Config)
    requires c.Valid()
    ensures IsDead(invalid, inactive, c)
        <==> !(IsActive(invalid, inactive, c) || MayReactivate(invalid, inactive, c))
  {
  }

  /** An invalidated fire is dead and neither active nor a sleeper, at any
      inactivity. */
  lemma InvalidIsDead(inactive: int, c: Config)
    ensures IsDead(true, inactive, c)
    ensures !IsActive(true, inactive, c) && !MayReactivate(true, inactive, c)
  {
  }

  /** Windows of 5 and 20 days (10 and 40 half-days), last new pixels on a
      PM step: 4 days later the fire is active, 8.5 days later a sleeper,
      29.5 days later dead. */
  lemma WindowScenario(c: Config)
    requires c.maxOffDays == 10 && c.limOffDays == 40
    ensures PhaseOf(false, 8, c) == Active
    ensures PhaseOf(false, 17, c) == Sleeper
    ensures PhaseOf(false, 59, c) == Dead && !MayReactivate(false, 59, c)
  {
  }
}
