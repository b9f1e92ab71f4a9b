/** The difficulty ramp applied after each spawned word. */
module Difficulty {

  datatype Level = Level(speed: real, spawnInterval: real)

  const InitialSpeed: real := 100.0
  const InitialSpawnInterval: real := 2.5
  const RampEvery: nat := 15
  const SpeedStep: real := 10.0
  const IntervalStep: real := 0.5
  const MinInterval: real := 0.5

  function Max(a: real, b: real): (r: real)
    ensures r >= a && r >= b && (r == a || r == b)
  {
    if a >= b then a else b
  }

  /** The level after the spawned-word counter has become `wordCount`. */
  function Ramp(d: Level, wordCount: int): Level {
    if wordCount % RampEvery == 0 then
      Level(d.speed + SpeedStep, Max(d.spawnInterval - IntervalStep, MinInterval))
    else d
  }

  /** Difficulty never eases: speed does not fall, the interval does not
      grow, and the floor of 0.5 is kept once it has been reached. The
      precondition matters only in principle: below 0.5 the floor would
      raise the interval, but it starts at 2.5 and never goes under 0.5. */
  lemma RampMonotone(d: Level, wordCount: int)
    requires d.spawnInterval >= MinInterval
    ensures Ramp(d, wordCount).speed >= d.speed
    ensures Ramp(d, wordCount).spawnInterval <= d.spawnInterval
    ensures Ramp(d, wordCount).spawnInterval >= MinInterval
  {
  }

  /** The level after `n` further spawns, the counter starting at `from`. */
  function AfterSpawns(d: Level, from: nat, n: nat): Level {
    if n == 0 then d else Ramp(AfterSpawns(d, from, n - 1), from + n)
  }

  /** From a fresh counter, the ramp has fired once per 15 spawns. */
  lemma {:induction false} AfterSpawnsClosedForm(d: Level, n: nat)
    requires d.spawnInterval >= MinInterval
    ensures AfterSpawns(d, 0, n) ==
      Level(d.speed + SpeedStep * (n / RampEvery) as real,
            Max(d.spawnInterval - IntervalStep * (n / RampEvery) as real, MinInterval))
  {
    if n > 0 {
      AfterSpawnsClosedForm(d, n - 1);
      var k := (n - 1) / RampEvery;
      if n % RampEvery == 0 {
        assert n / RampEvery == k + 1;
      } else {
        assert n / RampEvery == k;
      }
    }
  }

  /** Over any run of spawns the speed rises and the interval falls, floored. */
  lemma {:induction false} AfterSpawnsMonotone(d: Level, from: nat, n: nat)
    requires d.spawnInterval >= MinInterval
    ensures AfterSpawns(d, from, n).speed >= d.speed
    ensures MinInterval <= AfterSpawns(d, from, n).spawnInterval <= d.spawnInterval
  {
    if n > 0 {
      AfterSpawnsMonotone(d, from, n - 1);
      RampMonotone(AfterSpawns(d, from, n - 1), from + n);
    }
  }
}
