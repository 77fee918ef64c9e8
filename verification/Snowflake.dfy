// Snowflake ids: datacenter, worker, sequence and millisecond timestamp in one 63-bit number, the timestamp lowest.
//
// The clock is the sequence of its readings, which never go back; one call may take several of them.
module Snowflake {
  const MAX_WORKER_ID := 31
  const MAX_DATACENTER_ID := 31
  const SEQUENCES := 0x1000
  const TIMES := 0x200_0000_0000
  const SEQUENCE_UNIT := TIMES
  const WORKER_UNIT := SEQUENCES * TIMES
  const DATACENTER_UNIT := 32 * SEQUENCES * TIMES

  /** The fields are disjoint bit ranges, so the program's bitwise or is a sum. */
  function Id(datacenter: nat, worker: nat, sequence: nat, time: int): int {
    datacenter * DATACENTER_UNIT + worker * WORKER_UNIT + sequence * SEQUENCE_UNIT + time % TIMES
  }

  lemma Split41(hi: nat, lo: nat)
    requires lo < TIMES
    ensures (hi * TIMES + lo) / TIMES == hi && (hi * TIMES + lo) % TIMES == lo
  {
  }

  lemma Split12(hi: nat, lo: nat)
    requires lo < SEQUENCES
    ensures (hi * SEQUENCES + lo) / SEQUENCES == hi && (hi * SEQUENCES + lo) % SEQUENCES == lo
  {
  }

  /** Ids are non-negative 64-bit numbers, and every field can be read back. */
  lemma IdFields(datacenter: nat, worker: nat, sequence: nat, time: int)
    requires datacenter < 32 && worker < 32 && sequence < 4096
    ensures var id := Id(datacenter, worker, sequence, time);
            && 0 <= id < 0x8000_0000_0000_0000
            && id / 0x200_0000_0000 / 4096 / 32 == datacenter && id / 0x200_0000_0000 / 4096 % 32 == worker
            && id / 0x200_0000_0000 % 4096 == sequence && id % 0x200_0000_0000 == time % 0x200_0000_0000
  {
    var place := datacenter * 32 + worker;
    Split41(place * SEQUENCES + sequence, time % TIMES);
    Split12(place, sequence);
    assert Id(datacenter, worker, sequence, time) == (place * SEQUENCES + sequence) * TIMES + time % TIMES;
  }

  /** Two generators, or one with two different (time, sequence) pairs in one window of 2^41 ms, never give one id. */
  lemma IdsDiffer(d: nat, w: nat, s: nat, t: int, d': nat, w': nat, s': nat, t': int)
    requires d <= MAX_DATACENTER_ID && w <= MAX_WORKER_ID && s < SEQUENCES
    requires d' <= MAX_DATACENTER_ID && w' <= MAX_WORKER_ID && s' < SEQUENCES
    requires (d, w) != (d', w') || (-TIMES < t - t' < TIMES && (s, t) != (s', t'))
    ensures Id(d, w, s, t) != Id(d', w', s', t')
  {
    IdFields(d, w, s, t);
    IdFields(d', w', s', t');
    SameWindow(t, t');
  }

  lemma SameWindow(t: int, t': int)
    ensures -TIMES < t - t' < TIMES && t % TIMES == t' % TIMES ==> t == t'
  {
  }

  /** A call's timestamp and sequence number. */
  datatype Stamp = Stamp(time: int, sequence: nat)

  /** Later time, or the same time and a later sequence number. */
  predicate Before(a: Stamp, b: Stamp) {
    a.time < b.time || (a.time == b.time && a.sequence < b.sequence)
  }

  ghost predicate Increasing(stamps: seq<Stamp>) {
    forall i, j :: 0 <= i < j < |stamps| ==> Before(stamps[i], stamps[j])
  }

  class Generator {
    const twepoch: int
    const worker: nat
    const datacenter: nat
    /** The clock's readings and how many have been taken. */
    const clock: seq<int>
    var taken: nat
    var lastTimestamp: int
    var sequence: nat
    /** The stamps of all ids given so far. */
    ghost var stamps: seq<Stamp>

    ghost predicate Valid()
      reads this
    {
      && worker <= MAX_WORKER_ID && datacenter <= MAX_DATACENTER_ID
      && (forall i, j :: 0 <= i <= j < |clock| ==> 0 <= clock[i] <= clock[j])
      && taken <= |clock| && sequence < SEQUENCES
      && (forall i :: taken <= i < |clock| ==> lastTimestamp <= clock[i])
      && Increasing(stamps)
      && (forall s :: s in stamps ==> 0 <= s.time && s.sequence < SEQUENCES)
      && (stamps == [] ==> lastTimestamp == -1)
      && (stamps != [] ==> stamps[|stamps| - 1] == Stamp(lastTimestamp, sequence))
    }

    /** init refuses worker and datacenter numbers above 31; a refused generator keeps the numbers 0. */
    constructor (twepoch: int, workerId: int, datacenterId: int, clock: seq<int>)
      requires forall i, j :: 0 <= i <= j < |clock| ==> 0 <= clock[i] <= clock[j]
      ensures Valid() && stamps == [] && this.clock == clock && taken == 0 && this.twepoch == twepoch
      ensures 0 <= workerId <= MAX_WORKER_ID && 0 <= datacenterId <= MAX_DATACENTER_ID ==>
                worker == workerId && datacenter == datacenterId
    {
      var ok := 0 <= workerId <= MAX_WORKER_ID && 0 <= datacenterId <= MAX_DATACENTER_ID;
      this.twepoch, this.clock := twepoch, clock;
      worker := if ok then workerId else 0;
      datacenter := if ok then datacenterId else 0;
      taken, lastTimestamp, sequence, stamps := 0, -1, 0, [];
    }

    /** wait_next_millis */
    method WaitNextMillis() returns (timestamp: int)
      requires Valid() && exists i :: taken <= i < |clock| && clock[i] > lastTimestamp
      modifies this`taken
      ensures Valid() && taken > old(taken) && timestamp == clock[taken - 1] > lastTimestamp
      ensures forall i :: old(taken) <= i < taken - 1 ==> clock[i] <= lastTimestamp
    {
      timestamp := clock[taken];
      taken := taken + 1;
      while timestamp <= lastTimestamp
        invariant Valid() && taken > old(taken) && timestamp == clock[taken - 1]
        invariant forall i :: old(taken) <= i < taken - 1 ==> clock[i] <= lastTimestamp
        invariant timestamp > lastTimestamp || exists i :: taken <= i < |clock| && clock[i] > lastTimestamp
        decreases |clock| - taken
      {
        timestamp := clock[taken];
        taken := taken + 1;
      }
    }

    /** The clock must still show a later time than the last id's, in case the sequence numbers of its time run out. */
    method NextId() returns (id: int)
      requires Valid() && taken < |clock| && clock[|clock| - 1] > clock[taken]
      modifies this
      ensures Valid() && |stamps| == |old(stamps)| + 1 && stamps[..|old(stamps)|] == old(stamps)
      ensures id == Id(datacenter, worker, stamps[|stamps| - 1].sequence, stamps[|stamps| - 1].time - twepoch)
      ensures stamps[|stamps| - 1].time in clock[old(taken)..]
      ensures stamps[|stamps| - 1].sequence
              == if stamps[|stamps| - 1].time == old(lastTimestamp) then old(sequence) + 1 else 0
      ensures stamps[|stamps| - 1].time == clock[old(taken)]
              || (clock[old(taken)] == old(lastTimestamp) < stamps[|stamps| - 1].time && old(sequence) == 4095)
    {
      var timestamp := clock[taken];
      taken := taken + 1;
      ghost var first := stamps == [];
      if lastTimestamp == timestamp {
        if sequence + 1 == SEQUENCES {
          // (m_sequence + 1) & SEQUENCE_MASK is 0
          timestamp := WaitNextMillis();
          sequence := 0;
        } else {
          sequence := sequence + 1;
        }
      } else {
        sequence := 0;
      }
      lastTimestamp := timestamp;
      stamps := stamps + [Stamp(timestamp, sequence)];
      id := Id(datacenter, worker, sequence, timestamp - twepoch);
    }
  }

  /** The ids of one generator differ while its times lie in one window of 2^41 ms. */
  lemma GeneratedIdsDiffer(stamps: seq<Stamp>, datacenter: nat, worker: nat, twepoch: int, i: nat, j: nat)
    requires Increasing(stamps) && datacenter <= MAX_DATACENTER_ID && worker <= MAX_WORKER_ID
    requires forall s :: s in stamps ==> s.sequence < SEQUENCES
    requires i < j < |stamps| && stamps[j].time - stamps[i].time < TIMES
    ensures Id(datacenter, worker, stamps[i].sequence, stamps[i].time - twepoch)
            != Id(datacenter, worker, stamps[j].sequence, stamps[j].time - twepoch)
  {
    assert Before(stamps[i], stamps[j]);
    assert stamps[i] in stamps && stamps[j] in stamps;
    IdsDiffer(datacenter, worker, stamps[i].sequence, stamps[i].time - twepoch,
              datacenter, worker, stamps[j].sequence, stamps[j].time - twepoch);
  }
}
