/** The benchmark's packet stream and its contiguous sequence checker. */
module Benchmark {
  import opened Optional

  /** `inRange` says that every channel of the sample is inside its range. */
  datatype Sample = Sample(car: string, seqNo: nat, inRange: bool)

  function CountCar(stream: seq<Sample>, car: string): nat {
    if stream == [] then 0
    else CountCar(stream[..|stream| - 1], car) + if stream[|stream| - 1].car == car then 1 else 0
  }

  /** Each car's samples are numbered 0, 1, 2, ... in stream order. */
  ghost predicate Numbered(stream: seq<Sample>) {
    forall i :: 0 <= i < |stream| ==> stream[i].seqNo == CountCar(stream[..i], stream[i].car)
  }

  lemma NumberedNext(stream: seq<Sample>, s: Sample)
    requires Numbered(stream) && s.seqNo == CountCar(stream, s.car)
    ensures Numbered(stream + [s])
    ensures forall car :: CountCar(stream + [s], car) == CountCar(stream, car) + if s.car == car then 1 else 0
  {
    var grown := stream + [s];
    assert grown[..|stream|] == stream;
    assert forall j :: 0 <= j < |stream| ==> grown[..j] == stream[..j];
  }

  /** Round robin over the cars, one counter per distinct car. */
  method GeneratePacketStream(n: int, carIds: seq<string>, healthy: nat -> bool) returns (stream: seq<Sample>)
    ensures n <= 0 || carIds == [] ==> stream == []
    ensures n > 0 && carIds != [] ==> |stream| == n
    ensures forall i :: 0 <= i < |stream| ==>
              carIds != [] && stream[i].car == carIds[i % |carIds|] && stream[i].inRange == healthy(i)
    ensures Numbered(stream)
  {
    stream := [];
    if n <= 0 || carIds == [] {
      return;
    }
    var sequences: map<string, nat> := map car | car in carIds :: 0;
    for i := 0 to n
      invariant |stream| == i && Numbered(stream)
      invariant forall car :: car in carIds ==> car in sequences && sequences[car] == CountCar(stream, car)
      invariant forall j :: 0 <= j < i ==> stream[j].car == carIds[j % |carIds|] && stream[j].inRange == healthy(j)
    {
      var car := carIds[i % |carIds|];
      var sample := Sample(car, sequences[car], healthy(i));
      NumberedNext(stream, sample);
      sequences := sequences[car := sequences[car] + 1];
      stream := stream + [sample];
    }
  }

  datatype Stage = AnomalyCheck | SequenceCheck

  function StepSequence(last: map<string, int>, car: string, seqNo: nat): (map<string, int>, bool) {
    var previous := if car in last then last[car] else seqNo - 1;
    if seqNo != previous + 1 then (last, false) else (last[car := seqNo], true)
  }

  function StepSample(last: map<string, int>, s: Sample): (map<string, int>, Option<Stage>) {
    if !s.inRange then (last, Some(AnomalyCheck))
    else
      var (next, ok) := StepSequence(last, s.car, s.seqNo);
      (next, if ok then None else Some(SequenceCheck))
  }

  /** Signing, encryption, signature and commitment succeed for the pipeline's own packets, so
      two stages can fail. */
  class PitCryptPipeline {
    var lastSequence: map<string, int>

    constructor ()
      ensures lastSequence == map[]
    {
      lastSequence := map[];
    }

    method CheckSequence(car: string, seqNo: nat) returns (ok: bool)
      modifies this
      ensures (lastSequence, ok) == StepSequence(old(lastSequence), car, seqNo)
    {
      var last := if car in lastSequence then lastSequence[car] else seqNo - 1;
      if seqNo != last + 1 {
        return false;
      }
      lastSequence := lastSequence[car := seqNo];
      return true;
    }

    method ProcessPacket(s: Sample) returns (failed: Option<Stage>)
      modifies this
      ensures (lastSequence, failed) == StepSample(old(lastSequence), s)
    {
      if !s.inRange {
        return Some(AnomalyCheck);
      }
      var ok := CheckSequence(s.car, s.seqNo);
      failed := if ok then None else Some(SequenceCheck);
    }
  }

  function Run(stream: seq<Sample>): map<string, int> {
    if stream == [] then map[] else StepSample(Run(stream[..|stream| - 1]), stream[|stream| - 1]).0
  }

  predicate AcceptedAt(stream: seq<Sample>, i: nat)
    requires i < |stream|
  {
    StepSample(Run(stream[..i]), stream[i]).1.None?
  }

  ghost predicate Started(stream: seq<Sample>, car: string) {
    exists k :: 0 <= k < |stream| && stream[k].car == car && stream[k].inRange
  }

  /** After its first good packet the car has had a bad one: its first block has ended. */
  ghost predicate Broken(stream: seq<Sample>, car: string) {
    exists k, j :: 0 <= k < j < |stream| && stream[k].car == car && stream[j].car == car
                   && stream[k].inRange && !stream[j].inRange
  }

  lemma StartedStep(stream: seq<Sample>, s: Sample, car: string)
    ensures Started(stream + [s], car) <==> Started(stream, car) || (s.car == car && s.inRange)
    ensures Broken(stream + [s], car) <==> Broken(stream, car) || (s.car == car && !s.inRange && Started(stream, car))
  {
    var grown := stream + [s];
    if Started(stream, car) {
      var k :| 0 <= k < |stream| && stream[k].car == car && stream[k].inRange;
      assert grown[k] == stream[k] && grown[|stream|] == s;
    }
    if s.car == car && s.inRange {
      assert grown[|stream|] == s;
    }
    if Broken(stream, car) {
      var k, j :| 0 <= k < j < |stream| && stream[k].car == car && stream[j].car == car
                  && stream[k].inRange && !stream[j].inRange;
      assert grown[k] == stream[k] && grown[j] == stream[j];
    }
  }

  /** What the checker remembers of a car: nothing before its first good packet, its latest
      number inside its first block, and a number that can never be continued after that. */
  ghost predicate Tracks(last: map<string, int>, stream: seq<Sample>, car: string) {
    && (car in last <==> Started(stream, car))
    && (car in last && !Broken(stream, car) ==> last[car] == CountCar(stream, car) - 1)
    && (Broken(stream, car) ==> car in last && last[car] < CountCar(stream, car) - 1)
  }

  lemma TracksStep(last: map<string, int>, stream: seq<Sample>, s: Sample, car: string)
    requires Tracks(last, stream, s.car) && Tracks(last, stream, car) && s.seqNo == CountCar(stream, s.car)
    ensures Tracks(StepSample(last, s).0, stream + [s], car)
  {
    StartedStep(stream, s, car);
    assert (stream + [s])[..|stream|] == stream;
  }

  lemma {:induction false} RunTracks(stream: seq<Sample>, car: string)
    requires Numbered(stream)
    ensures Tracks(Run(stream), stream, car)
  {
    if stream != [] {
      var n := |stream| - 1;
      var front, s := stream[..n], stream[n];
      assert forall i :: 0 <= i < n ==> front[..i] == stream[..i];
      RunTracks(front, car);
      RunTracks(front, s.car);
      TracksStep(Run(front), front, s, car);
      assert front + [s] == stream;
    }
  }

  /** For any number of cars and any interleaving, a car's accepted packets are exactly the
      first maximal block of its packets that pass the range check: a packet is accepted iff
      it passes and no packet of that car failed after one had passed. */
  lemma FirstBlockAccepted(stream: seq<Sample>, i: nat)
    requires Numbered(stream) && i < |stream|
    ensures AcceptedAt(stream, i) <==> stream[i].inRange && !Broken(stream[..i], stream[i].car)
    ensures StepSample(Run(stream[..i]), stream[i]).1 == Some(AnomalyCheck) <==> !stream[i].inRange
  {
    assert Numbered(stream[..i]) by {
      assert forall j :: 0 <= j < i ==> stream[..i][..j] == stream[..j];
    }
    RunTracks(stream[..i], stream[i].car);
  }
}
