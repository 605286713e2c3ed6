/**
 * Command plans. The provisioning steps probe the machine with external tools
 * and then run further tools to change it. Here a probe is an input (its exit
 * status and captured output) and every changing call is an entry of a plan:
 * the argument list the step would hand to the tool, in order.
 */
module Plan {

  /** One external call, as its argument list. */
  type Command = seq<string>

  /** What a probe reports: its exit status and what it printed. */
  datatype Probe = Probe(returncode: int, stdout: string)

  /** The commands of consecutive steps, one step after the other. */
  function Flatten(steps: seq<seq<Command>>): seq<Command> {
    if steps == [] then [] else Flatten(steps[..|steps| - 1]) + steps[|steps| - 1]
  }

  /** One more step adds its commands at the end. */
  lemma FlattenSnoc(steps: seq<seq<Command>>, last: seq<Command>)
    ensures Flatten(steps + [last]) == Flatten(steps) + last
  {
    assert (steps + [last])[..|steps|] == steps;
  }

  /** A command is planned exactly when some step plans it. */
  lemma {:induction false} FlattenMember(steps: seq<seq<Command>>, c: Command)
    ensures c in Flatten(steps) <==> exists k :: 0 <= k < |steps| && c in steps[k]
  {
    if steps != [] {
      var init := steps[..|steps| - 1];
      FlattenMember(init, c);
      if exists k :: 0 <= k < |steps| && c in steps[k] {
        var k :| 0 <= k < |steps| && c in steps[k];
        if k < |init| {
          assert c in init[k];
        }
      }
      if exists k :: 0 <= k < |init| && c in init[k] {
        var k :| 0 <= k < |init| && c in init[k];
        assert c in steps[k];
      }
    }
  }

  /** Nothing is planned exactly when every step plans nothing. */
  lemma {:induction false} FlattenEmpty(steps: seq<seq<Command>>)
    ensures Flatten(steps) == [] <==> forall k :: 0 <= k < |steps| ==> steps[k] == []
  {
    if steps != [] {
      var init := steps[..|steps| - 1];
      FlattenEmpty(init);
      if Flatten(steps) == [] {
        assert |Flatten(init)| + |steps[|steps| - 1]| == 0;
        forall k | 0 <= k < |steps|
          ensures steps[k] == []
        {
          if k < |init| {
            assert init[k] == steps[k];
          }
        }
      }
      assert forall k :: 0 <= k < |init| ==> init[k] == steps[k];
    }
  }
}
