/**
 The launch loop of `main`: instance `i`
 gets id `i + 1` and its label, is stored in the instance slice, and, once both
 output pipes are open and the process has started, adds its two streamers to
 the completion counter.
 */
module Launch {
  import opened Labels
  import opened Instances

  /** The ids of the instances whose process started, in launch order. */
  function StartedIds(attempts: seq<Attempt>): (ids: seq<nat>)
    ensures |ids| <= |attempts|
    ensures forall k :: 0 <= k < |ids| ==> 1 <= ids[k] <= |attempts| && attempts[ids[k] - 1].Started?
    ensures forall k, l :: 0 <= k < l < |ids| ==> ids[k] < ids[l]
  {
    if attempts == [] then []
    else
      var last := |attempts| - 1;
      StartedIds(attempts[..last]) + (if attempts[last].Started? then [|attempts|] else [])
  }

  /** Every instance is among the started ids exactly when its process started. */
  lemma StartedIdsComplete(attempts: seq<Attempt>)
    ensures forall i :: 0 <= i < |attempts| ==> (i + 1 in StartedIds(attempts) <==> attempts[i].Started?)
  {
    forall i | 0 <= i < |attempts|
      ensures i + 1 in StartedIds(attempts) <==> attempts[i].Started?
    {
      StartedIdsMember(attempts, i);
    }
  }

  lemma {:induction false} StartedIdsMember(attempts: seq<Attempt>, i: nat)
    requires i < |attempts|
    ensures i + 1 in StartedIds(attempts) <==> attempts[i].Started?
  {
    var last := |attempts| - 1;
    var front := StartedIds(attempts[..last]);
    var tail := if attempts[last].Started? then [|attempts|] else [];
    assert StartedIds(attempts) == front + tail;
    if i < last {
      assert attempts[..last][i] == attempts[i];
      StartedIdsMember(attempts[..last], i);
      assert i + 1 !in tail;
    } else {
      assert i + 1 !in front;
    }
  }

  /** The instance at 0-based `index` of a run of `count`, after its launch attempt. */
  function Spawned(index: nat, count: int, noColor: bool, custom: string, attempt: Attempt): Instance
    requires index < count
  {
    var tag := Assign(index, count, noColor, custom);
    Instance(index + 1, tag.color, tag.prefix,
             Some(Command(if attempt.Started? then Some(attempt.process) else None)))
  }

  /** The whole instance slice after the launch loop. */
  function SpawnedAll(count: nat, noColor: bool, custom: string, attempts: seq<Attempt>): seq<Option<Instance>>
    requires |attempts| == count
  {
    seq(count, i requires 0 <= i < count => Some(Spawned(i, count, noColor, custom, attempts[i])))
  }

  /** Slot `i` of the finished slice is instance `i` after its launch attempt. */
  lemma SpawnedAt(count: nat, noColor: bool, custom: string, attempts: seq<Attempt>, i: nat)
    requires |attempts| == count && i < count
    ensures SpawnedAll(count, noColor, custom, attempts)[i] == Some(Spawned(i, count, noColor, custom, attempts[i]))
  {
  }

  /** A prefix one longer is the prefix followed by the next element. */
  lemma PrefixStep<T>(s: seq<T>, i: nat)
    requires i < |s|
    ensures s[..i + 1] == s[..i] + [s[i]]
  {
  }

  datatype LaunchResult =
    | CountTooSmall
    | Launched(instances: seq<Option<Instance>>, pending: nat)

  lemma StartedIdsStep(attempts: seq<Attempt>, i: nat)
    requires i < |attempts|
    ensures StartedIds(attempts[..i + 1])
         == StartedIds(attempts[..i]) + (if attempts[i].Started? then [i + 1] else [])
  {
    assert attempts[..i + 1][..i] == attempts[..i];
  }

  /**
   The launch loop: rejects a count below 1 before anything is spawned;
   otherwise fills the instance slice in launch order and counts two pending
   streamers for every instance whose pipes and start all succeeded.
   `attempts[i]` is what the operating system answered for instance `i`.
   */
  method Launch(count: int, noColor: bool, custom: string, attempts: seq<Attempt>) returns (r: LaunchResult)
    requires count >= 1 ==> |attempts| == count
    ensures r.CountTooSmall? <==> count < 1
    ensures r.Launched? ==> r.instances == SpawnedAll(count, noColor, custom, attempts)
    ensures r.Launched? ==> r.pending == 2 * |StartedIds(attempts)|
  {
    if count < 1 {
      return CountTooSmall;
    }
    var instances := new Option<Instance>[count](_ => None);
    var pending := 0;
    for i := 0 to count
      invariant instances[..i] == SpawnedAll(count, noColor, custom, attempts)[..i]
      invariant pending == 2 * |StartedIds(attempts[..i])|
    {
      var tag := Assign(i, count, noColor, custom);
      var inst := Instance(i + 1, tag.color, tag.prefix, Some(Command(None)));
      StartedIdsStep(attempts, i);
      if attempts[i].Started? {
        // both pipes opened and Start succeeded: the command now holds its process
        inst := inst.(cmd := Some(Command(Some(attempts[i].process))));
        pending := pending + 2;
      }
      assert inst == Spawned(i, count, noColor, custom, attempts[i]);
      SpawnedAt(count, noColor, custom, attempts, i);
      PrefixStep(SpawnedAll(count, noColor, custom, attempts), i);
      instances[i] := Some(inst);
      assert instances[..i + 1] == instances[..i] + [Some(inst)];
    }
    assert attempts[..count] == attempts;
    assert instances[..] == instances[..count];
    r := Launched(instances[..], pending);
  }

  /** Instance `i` carries id `i + 1` and the label assigned to index `i`. */
  lemma SpawnedLabels(count: nat, noColor: bool, custom: string, attempts: seq<Attempt>, i: nat)
    requires |attempts| == count && i < count
    ensures SpawnedAll(count, noColor, custom, attempts)[i].Some?
    ensures SpawnedAll(count, noColor, custom, attempts)[i].value.id == i + 1
    ensures SpawnedAll(count, noColor, custom, attempts)[i].value.color == Color(i, noColor)
    ensures SpawnedAll(count, noColor, custom, attempts)[i].value.prefix
         == FormatPrefix(custom, i + 1, ChooseIdFormat(count))
    ensures SpawnedAll(count, noColor, custom, attempts)[i].value.cmd.value.process.Some?
        <==> attempts[i].Started?
  {
  }
}
