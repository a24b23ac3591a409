/** Joining pipe stages and wiring them up: `internal/pshell/parse.go` and `executor.go`. */
module PipeLine {
  import opened Bytes
  import opened Options
  import opened Strings

  datatype Stage = Stage(args: seq<string>, operator: string)

  // ---- The kinds of commands ----

  /** The built-in commands are a fixed list of names, none of them empty; only that matters here. */
  type Names = names: string -> bool | !names("") witness (_ => false)

  predicate IsLocal(cmd: string, builtIn: Names): (local: bool)
    ensures local <==> builtIn(cmd) || "+" <= cmd
  {
    builtIn(cmd) || (cmd != "" && cmd[0] == '+')
  }

  /** `@hosts:command` with some host. */
  ghost predicate Targeted(cmd: string) {
    exists hosts, command :: Targets(cmd, hosts, command)
  }

  predicate Targets(cmd: string, hosts: string, command: string) {
    cmd == "@" + hosts + ":" + command && hosts != "" && ':' !in hosts
  }

  predicate IsTargetedRemote(cmd: string): (targeted: bool)
    ensures targeted <==> Targeted(cmd)
  {
    TargetedAtColon(cmd);
    cmd != "" && cmd[0] == '@' && FirstIndex(cmd, ':') > 1
  }

  lemma TargetedAtColon(cmd: string)
    ensures Targeted(cmd) <==> cmd != "" && cmd[0] == '@' && FirstIndex(cmd, ':') > 1
  {
    hide Targets, FirstIndex;
    if cmd != "" && cmd[0] == '@' && FirstIndex(cmd, ':') > 1 {
      var i := FirstIndex(cmd, ':');
      HostsBefore(cmd, i);
    }
    if Targeted(cmd) {
      var hosts, command :| Targets(cmd, hosts, command);
      ColonAfter(cmd, hosts, command);
    }
  }

  lemma HostsBefore(cmd: string, i: nat)
    requires 1 < i < |cmd| && cmd[0] == '@' && cmd[i] == ':' && ':' !in cmd[..i]
    ensures Targets(cmd, cmd[1..i], cmd[i + 1..])
  {
    assert forall c :: c in cmd[1..i] ==> c in cmd[..i];
  }

  lemma ColonAfter(cmd: string, hosts: string, command: string)
    requires Targets(cmd, hosts, command)
    ensures cmd != "" && cmd[0] == '@' && FirstIndex(cmd, ':') == |hosts| + 1 && hosts != ""
  {
    var n := |hosts| + 1;
    assert cmd[n] == ':' && cmd[..n] == "@" + hosts;
    FirstIndexIs(cmd, ':', n);
  }

  /** A stage that runs on all connected hosts; only such stages are joined. */
  predicate IsRemote(stage: Stage, builtIn: Names)
    requires stage.args != []
  {
    !IsLocal(stage.args[0], builtIn) && !IsTargetedRemote(stage.args[0])
  }

  // ---- joinPipeLine ----

  function Tokens(stages: seq<Stage>): seq<string> {
    if stages == [] then []
    else
      var last := stages[|stages| - 1];
      Tokens(stages[..|stages| - 1]) + last.args + [last.operator]
  }

  /** An untargeted remote stage at the front is joined to the empty stage before it. */
  function Lead(stages: seq<Stage>, builtIn: Names): seq<string>
    requires forall k :: 0 <= k < |stages| ==> stages[k].args != []
  {
    if stages == [] || IsRemote(stages[0], builtIn) then [""] else []
  }

  ghost predicate BothRemote(a: Stage, b: Stage, builtIn: Names) {
    a.args != [] && b.args != [] && IsRemote(a, builtIn) && IsRemote(b, builtIn)
  }

  ghost predicate NoAdjacentRemotes(stages: seq<Stage>, builtIn: Names) {
    |stages| > 1 ==>
      && NoAdjacentRemotes(stages[..|stages| - 1], builtIn)
      && !BothRemote(stages[|stages| - 2], stages[|stages| - 1], builtIn)
  }

  /** The same, stage by stage. */
  lemma {:induction false} NoTwoSideBySide(stages: seq<Stage>, k: nat, builtIn: Names)
    requires NoAdjacentRemotes(stages, builtIn) && k + 1 < |stages|
    ensures !BothRemote(stages[k], stages[k + 1], builtIn)
  {
    if k + 2 < |stages| {
      NoTwoSideBySide(stages[..|stages| - 1], k, builtIn);
    }
  }

  lemma AdjacentAppend(stages: seq<Stage>, next: Stage, builtIn: Names)
    ensures NoAdjacentRemotes(stages + [next], builtIn) <==>
      NoAdjacentRemotes(stages, builtIn) && (stages == [] || !BothRemote(stages[|stages| - 1], next, builtIn))
  {
    assert (stages + [next])[..|stages|] == stages;
  }

  /** What the loop knows: the finished stages, the one it is still building, and what kind that one is. */
  ghost predicate Joining(pslice: seq<Stage>, i: nat, result: seq<Stage>, bpline: Stage, beforeLocal: bool,
                          beforeTargeted: bool, builtIn: Names)
    requires i <= |pslice| && forall k :: 0 <= k < |pslice| ==> pslice[k].args != []
  {
    && (forall k :: 0 <= k < |result| ==> result[k].args != [])
    && NoAdjacentRemotes(result + [bpline], builtIn)
    && if i == 0 then result == [] && bpline == Stage([], "") && !beforeLocal && !beforeTargeted
       else
         && bpline.args != []
         && beforeLocal == IsLocal(bpline.args[0], builtIn) && beforeTargeted == IsTargetedRemote(bpline.args[0])
         && Tokens(result + [bpline]) == Lead(pslice, builtIn) + Tokens(pslice[..i])
  }

  // ---- Which stages become one ----

  ghost predicate AllRemote(group: seq<Stage>, builtIn: Names) {
    forall j :: 0 <= j < |group| ==> group[j].args != [] && IsRemote(group[j], builtIn)
  }

  function Glue(group: seq<Stage>): Stage
    requires group != []
  {
    if |group| == 1 then group[0]
    else
      var front, last := Glue(group[..|group| - 1]), group[|group| - 1];
      Stage(front.args + [front.operator] + last.args, last.operator)
  }

  /** A group as one stage; untargeted remote stages at the front are glued to an empty stage. */
  ghost function Glued(k: nat, group: seq<Stage>, builtIn: Names): Stage
    requires group != []
  {
    if k == 0 && AllRemote(group, builtIn) then Glue([Stage([], "")] + group) else Glue(group)
  }

  ghost predicate IsGroup(k: nat, groups: seq<seq<Stage>>, stages: seq<Stage>, builtIn: Names)
    requires k < |groups| == |stages|
  {
    && groups[k] != [] && (|groups[k]| > 1 ==> AllRemote(groups[k], builtIn))
    && (k > 0 && AllRemote(groups[k], builtIn) ==> !AllRemote(groups[k - 1], builtIn))
    && stages[k] == Glued(k, groups[k], builtIn)
  }

  /** The stages are the longest runs of untargeted remote stages, each run glued, and the other stages alone. */
  ghost predicate Grouped(pslice: seq<Stage>, groups: seq<seq<Stage>>, stages: seq<Stage>, builtIn: Names) {
    && Flatten(groups) == pslice && |groups| == |stages|
    && forall k :: 0 <= k < |groups| ==> IsGroup(k, groups, stages, builtIn)
  }

  lemma GroupGrows(pslice: seq<Stage>, groups: seq<seq<Stage>>, result: seq<Stage>, last: Stage, next: Stage,
                   builtIn: Names)
    requires Grouped(pslice, groups, result + [last], builtIn)
    requires AllRemote(groups[|groups| - 1], builtIn) && AllRemote([next], builtIn)
    ensures var n := |groups| - 1;
      AllRemote(groups[n] + [next], builtIn) &&
      Grouped(pslice + [next], groups[..n] + [groups[n] + [next]],
              result + [Stage(last.args + [last.operator] + next.args, next.operator)], builtIn)
  {
    var n := |groups| - 1;
    var stages, group := result + [last], groups[n];
    var grown := group + [next];
    var groups' := groups[..n] + [grown];
    var stages' := result + [Stage(last.args + [last.operator] + next.args, next.operator)];
    assert IsGroup(n, groups, stages, builtIn);
    assert Flatten(groups') == pslice + [next] by {
      assert groups'[..n] == groups[..n];
      ConcatAssociative(Flatten(groups[..n]), group, [next]);
    }
    assert AllRemote(grown, builtIn) by {
      assert AllRemote([next], builtIn) && [next][0] == next;
    }
    assert [Stage([], "")] + grown == [Stage([], "")] + group + [next];
    assert grown[..|group|] == group && ([Stage([], "")] + grown)[..|group| + 1] == [Stage([], "")] + group;
    forall k | 0 <= k < n ensures IsGroup(k, groups', stages', builtIn) {
      assert IsGroup(k, groups, stages, builtIn);
    }
  }

  lemma GroupStarts(pslice: seq<Stage>, groups: seq<seq<Stage>>, stages: seq<Stage>, next: Stage, builtIn: Names)
    requires Grouped(pslice, groups, stages, builtIn) && stages != []
    requires next.args != [] && (IsRemote(next, builtIn) ==> !AllRemote(groups[|groups| - 1], builtIn))
    ensures Grouped(pslice + [next], groups + [[next]], stages + [next], builtIn)
  {
    var groups', stages' := groups + [[next]], stages + [next];
    assert groups'[..|groups|] == groups;
    assert AllRemote([next], builtIn) ==> IsRemote([next][0], builtIn);
    forall k | 0 <= k < |groups| ensures IsGroup(k, groups', stages', builtIn) {
      assert IsGroup(k, groups, stages, builtIn);
    }
  }

  /** Every argument and operator is kept, in order, and no two untargeted remote stages stay side by side; only runs
      of such stages are joined. */
  method JoinPipeLine(pslice: seq<Stage>, builtIn: Names) returns (result: seq<Stage>, ghost groups: seq<seq<Stage>>)
    requires forall k :: 0 <= k < |pslice| ==> pslice[k].args != []
    ensures if pslice == [] then result == [Stage([], "")] else Grouped(pslice, groups, result, builtIn)
    ensures Tokens(result) == Lead(pslice, builtIn) + Tokens(pslice)
    ensures NoAdjacentRemotes(result, builtIn) && |result| >= 1
    ensures pslice != [] ==> forall k :: 0 <= k < |result| ==> result[k].args != []
  {
    var beforeLocal, beforeTargeted := false, false;
    var bpline := Stage([], "");
    result, groups := [], [];
    for i := 0 to |pslice|
      invariant i > 0 ==> Grouped(pslice[..i], groups, result + [bpline], builtIn)
      invariant i > 0 ==> (AllRemote(groups[|groups| - 1], builtIn) <==> !beforeLocal && !beforeTargeted)
      invariant Joining(pslice, i, result, bpline, beforeLocal, beforeTargeted, builtIn)
    {
      var pline := pslice[i];
      var cmd := pline.args[0];
      var isLocal, isTargetedRemote := IsLocal(cmd, builtIn), IsTargetedRemote(cmd);
      JoiningStep(pslice, i, result, bpline, beforeLocal, beforeTargeted, builtIn);
      groups := NextGroups(pslice, i, groups, result, bpline, beforeLocal, beforeTargeted, builtIn);
      if isLocal || isTargetedRemote {
        if |bpline.args| > 0 {
          result := result + [bpline];
        }
        bpline := pline;
        beforeLocal := isLocal;
        beforeTargeted := isTargetedRemote;
      } else if beforeLocal {
        if |bpline.args| > 0 {
          result := result + [bpline];
        }
        bpline := pline;
        beforeLocal := false;
        beforeTargeted := false;
      } else if beforeTargeted {
        if |bpline.args| > 0 {
          result := result + [bpline];
        }
        bpline := pline;
        beforeLocal := false;
        beforeTargeted := false;
      } else {
        bpline := Stage(bpline.args + [bpline.operator] + pline.args, pline.operator);
        beforeLocal := false;
        beforeTargeted := false;
      }
    }
    result := result + [bpline];
    assert pslice[..|pslice|] == pslice;
  }

  lemma NextGroups(pslice: seq<Stage>, i: nat, groups: seq<seq<Stage>>, result: seq<Stage>, bpline: Stage,
                   beforeLocal: bool, beforeTargeted: bool, builtIn: Names) returns (next: seq<seq<Stage>>)
    requires i < |pslice| && forall k :: 0 <= k < |pslice| ==> pslice[k].args != []
    requires Joining(pslice, i, result, bpline, beforeLocal, beforeTargeted, builtIn)
    requires i > 0 ==> Grouped(pslice[..i], groups, result + [bpline], builtIn)
    requires i > 0 ==> (AllRemote(groups[|groups| - 1], builtIn) <==> !beforeLocal && !beforeTargeted)
    ensures next != [] && (AllRemote(next[|next| - 1], builtIn) <==> IsRemote(pslice[i], builtIn))
    ensures var pline := pslice[i];
      if IsRemote(pline, builtIn) && !beforeLocal && !beforeTargeted then
        Grouped(pslice[..i + 1], next,
                result + [Stage(bpline.args + [bpline.operator] + pline.args, pline.operator)], builtIn)
      else
        Grouped(pslice[..i + 1], next,
                if bpline.args != [] then result + [bpline] + [pline] else result + [pline], builtIn)
  {
    var pline := pslice[i];
    assert pslice[..i + 1] == pslice[..i] + [pline];
    OneStage(pline, builtIn);
    if i == 0 {
      next := [[pline]];
      FirstGroup(pline, builtIn);
      FirstStage(pslice, result, bpline, pline);
    } else if IsRemote(pline, builtIn) && !beforeLocal && !beforeTargeted {
      var n := |groups| - 1;
      next := groups[..n] + [groups[n] + [pline]];
      GroupGrows(pslice[..i], groups, result, bpline, pline, builtIn);
    } else {
      next := groups + [[pline]];
      GroupStarts(pslice[..i], groups, result + [bpline], pline, builtIn);
    }
  }

  lemma OneStage(pline: Stage, builtIn: Names)
    requires pline.args != []
    ensures AllRemote([pline], builtIn) <==> IsRemote(pline, builtIn)
  {
    assert [pline][0] == pline;
    assert AllRemote([pline], builtIn) ==> IsRemote([pline][0], builtIn);
  }

  lemma FirstStage(pslice: seq<Stage>, result: seq<Stage>, bpline: Stage, pline: Stage)
    requires pslice != [] && pline == pslice[0] && result == [] && bpline == Stage([], "")
    ensures pslice[..1] == [pline] && result + [pline] == [pline]
    ensures result + [Stage(bpline.args + [bpline.operator] + pline.args, pline.operator)]
      == [Stage([] + [""] + pline.args, pline.operator)]
  {
  }

  lemma FirstGroup(pline: Stage, builtIn: Names)
    requires pline.args != []
    ensures Grouped([pline], [[pline]],
      [if IsRemote(pline, builtIn) then Stage([] + [""] + pline.args, pline.operator) else pline], builtIn)
  {
    var groups, lead := [[pline]], Stage([], "");
    var stage := if IsRemote(pline, builtIn) then Stage([] + [""] + pline.args, pline.operator) else pline;
    assert AllRemote([pline], builtIn) <==> IsRemote([pline][0], builtIn);
    assert Flatten(groups) == [pline] by {
      assert groups[..0] == [];
    }
    assert ([lead] + [pline])[..1] == [lead] && Glue([lead]) == lead;
    assert Glued(0, groups[0], builtIn) == stage;
    assert IsGroup(0, groups, [stage], builtIn);
  }

  lemma JoiningStep(pslice: seq<Stage>, i: nat, result: seq<Stage>, bpline: Stage, beforeLocal: bool,
                    beforeTargeted: bool, builtIn: Names)
    requires i < |pslice| && forall k :: 0 <= k < |pslice| ==> pslice[k].args != []
    requires Joining(pslice, i, result, bpline, beforeLocal, beforeTargeted, builtIn)
    ensures var pline := pslice[i];
      if IsRemote(pline, builtIn) && !beforeLocal && !beforeTargeted then
        Joining(pslice, i + 1, result, Stage(bpline.args + [bpline.operator] + pline.args, pline.operator),
                false, false, builtIn)
      else
        Joining(pslice, i + 1, if bpline.args != [] then result + [bpline] else result, pline,
                IsLocal(pline.args[0], builtIn), IsTargetedRemote(pline.args[0]), builtIn)
  {
    if IsRemote(pslice[i], builtIn) && !beforeLocal && !beforeTargeted {
      JoinsOn(pslice, i, result, bpline, beforeLocal, beforeTargeted, builtIn);
    } else {
      StartsAnew(pslice, i, result, bpline, beforeLocal, beforeTargeted, builtIn);
    }
  }

  lemma JoinsOn(pslice: seq<Stage>, i: nat, result: seq<Stage>, bpline: Stage, beforeLocal: bool, beforeTargeted: bool,
                builtIn: Names)
    requires i < |pslice| && forall k :: 0 <= k < |pslice| ==> pslice[k].args != []
    requires Joining(pslice, i, result, bpline, beforeLocal, beforeTargeted, builtIn)
    requires IsRemote(pslice[i], builtIn) && !beforeLocal && !beforeTargeted
    ensures Joining(pslice, i + 1, result, Stage(bpline.args + [bpline.operator] + pslice[i].args, pslice[i].operator),
                    false, false, builtIn)
  {
    var joined := Stage(bpline.args + [bpline.operator] + pslice[i].args, pslice[i].operator);
    AdjacentAppend(result, bpline, builtIn);
    AdjacentAppend(result, joined, builtIn);
    assert joined.args[0] == if bpline.args == [] then "" else bpline.args[0];
    TokensStep(result, bpline, pslice[i]);
    NextTokens(pslice, i, result, bpline, builtIn);
  }

  lemma StartsAnew(pslice: seq<Stage>, i: nat, result: seq<Stage>, bpline: Stage, beforeLocal: bool,
                   beforeTargeted: bool, builtIn: Names)
    requires i < |pslice| && forall k :: 0 <= k < |pslice| ==> pslice[k].args != []
    requires Joining(pslice, i, result, bpline, beforeLocal, beforeTargeted, builtIn)
    requires !IsRemote(pslice[i], builtIn) || beforeLocal || beforeTargeted
    ensures Joining(pslice, i + 1, if bpline.args != [] then result + [bpline] else result, pslice[i],
                    IsLocal(pslice[i].args[0], builtIn), IsTargetedRemote(pslice[i].args[0]), builtIn)
  {
    if i == 0 {
      StartsFirst(pslice, builtIn);
      assert result == [] && bpline.args == [];
    } else {
      StartsLater(pslice, i, result, bpline, builtIn);
    }
  }

  lemma StartsFirst(pslice: seq<Stage>, builtIn: Names)
    requires pslice != [] && (forall k :: 0 <= k < |pslice| ==> pslice[k].args != []) && !IsRemote(pslice[0], builtIn)
    ensures Joining(pslice, 1, [], pslice[0], IsLocal(pslice[0].args[0], builtIn),
                    IsTargetedRemote(pslice[0].args[0]), builtIn)
  {
    hide IsLocal, IsTargetedRemote, IsRemote, Tokens, NoAdjacentRemotes;
    var result: seq<Stage> := [];
    assert result + [pslice[0]] == pslice[..1];
    EmptyLead(Lead(pslice, builtIn), Tokens(pslice[..1]));
    NoNeighbours(pslice[..1], builtIn);
  }

  lemma NoNeighbours(stages: seq<Stage>, builtIn: Names)
    requires |stages| <= 1
    ensures NoAdjacentRemotes(stages, builtIn)
  {
  }

  lemma EmptyLead(lead: seq<string>, tokens: seq<string>)
    ensures lead == [] ==> lead + tokens == tokens
  {
  }

  lemma StartsLater(pslice: seq<Stage>, i: nat, result: seq<Stage>, bpline: Stage, builtIn: Names)
    requires 0 < i < |pslice| && bpline.args != []
    requires (forall k :: 0 <= k < |pslice| ==> pslice[k].args != [])
      && (forall k :: 0 <= k < |result| ==> result[k].args != [])
    requires NoAdjacentRemotes(result + [bpline], builtIn) && !BothRemote(bpline, pslice[i], builtIn)
    requires Tokens(result + [bpline]) == Lead(pslice, builtIn) + Tokens(pslice[..i])
    ensures Joining(pslice, i + 1, result + [bpline], pslice[i], IsLocal(pslice[i].args[0], builtIn),
                    IsTargetedRemote(pslice[i].args[0]), builtIn)
  {
    hide Tokens, Lead, IsLocal, IsTargetedRemote, IsRemote, NoAdjacentRemotes;
    AdjacentAppend(result + [bpline], pslice[i], builtIn);
    TokensStep(result, bpline, pslice[i]);
    NextTokens(pslice, i, result, bpline, builtIn);
  }

  lemma NextTokens(pslice: seq<Stage>, i: nat, result: seq<Stage>, bpline: Stage, builtIn: Names)
    requires i < |pslice| && forall k :: 0 <= k < |pslice| ==> pslice[k].args != []
    requires if i == 0 then result == [] && bpline == Stage([], "") && IsRemote(pslice[0], builtIn)
             else Tokens(result + [bpline]) == Lead(pslice, builtIn) + Tokens(pslice[..i])
    ensures Tokens(result + [bpline]) + pslice[i].args + [pslice[i].operator]
      == Lead(pslice, builtIn) + Tokens(pslice[..i + 1])
  {
    hide Tokens;
    TokensOf(pslice, i);
    if i == 0 {
      EmptyStageTokens();
      assert result + [bpline] == [Stage([], "")];
    }
    var lead, before := Lead(pslice, builtIn), Tokens(pslice[..i]);
    assert lead + before + pslice[i].args + [pslice[i].operator]
      == lead + (before + pslice[i].args + [pslice[i].operator]);
  }

  lemma EmptyStageTokens()
    ensures Tokens([Stage([], "")]) == [""]
  {
    assert [Stage([], "")][..0] == [];
  }

  lemma TokensOf(pslice: seq<Stage>, i: nat)
    requires i < |pslice|
    ensures Tokens(pslice[..i + 1]) == Tokens(pslice[..i]) + pslice[i].args + [pslice[i].operator]
    ensures i == 0 ==> Tokens(pslice[..i]) == []
  {
    assert pslice[..i + 1][..i] == pslice[..i];
  }

  lemma TokensStep(result: seq<Stage>, bpline: Stage, pline: Stage)
    ensures Tokens(result + [bpline] + [pline]) == Tokens(result + [bpline]) + pline.args + [pline.operator]
    ensures Tokens(result + [Stage(bpline.args + [bpline.operator] + pline.args, pline.operator)])
         == Tokens(result + [bpline]) + pline.args + [pline.operator]
  {
    var joined := Stage(bpline.args + [bpline.operator] + pline.args, pline.operator);
    assert (result + [bpline] + [pline])[..|result| + 1] == result + [bpline];
    assert (result + [bpline])[..|result|] == result && (result + [joined])[..|result|] == result;
  }

  // ---- Wiring: countPipeSet, createPipeSet and the loop of executeJoinedPipeLine ----

  /** The pipe that a stage reads and the pipe that it writes. */
  datatype Wire = Wire(input: Option<nat>, output: Option<nat>)

  /** The `|` among the first i stages. */
  function PipesBefore(stages: seq<Stage>, i: nat): nat
    requires i <= |stages|
  {
    if i == 0 then 0 else PipesBefore(stages, i - 1) + (if stages[i - 1].operator == "|" then 1 else 0)
  }

  method CountPipeSet(stages: seq<Stage>) returns (count: nat)
    ensures count == PipesBefore(stages, |stages|)
  {
    count := 0;
    for i := 0 to |stages|
      invariant count == PipesBefore(stages, i)
    {
      if stages[i].operator == "|" {
        count := count + 1;
      }
    }
  }

  /** The k-th pipe is written by the stage that carries the k-th `|`, and read by the stage after it. */
  method WireStages(stages: seq<Stage>) returns (pipes: nat, wires: seq<Wire>)
    ensures pipes == PipesBefore(stages, |stages|) && |wires| == |stages|
    ensures forall i :: 0 <= i < |wires| ==> wires[i] == WireOf(stages, i)
    ensures forall i :: 0 <= i < |wires| ==> (wires[i].output.Some? <==> stages[i].operator == "|")
    ensures forall i, j :: 0 <= i < |wires| && j == i + 1 && j < |wires| ==> wires[j].input == wires[i].output
    ensures wires != [] ==> wires[0].input == None
    ensures forall k: nat :: k < pipes ==> HasWriter(wires, k)
    ensures forall i, j :: 0 <= i < j < |wires| && wires[i].output.Some? && wires[j].output.Some? ==>
      wires[i].output.value < wires[j].output.value
    ensures forall i :: 0 <= i < |wires| ==>
      && (wires[i].input.Some? ==> wires[i].input.value < pipes)
      && (wires[i].output.Some? ==> wires[i].output.value < pipes)
  {
    hide PipesBefore;
    pipes := CountPipeSet(stages);
    wires := [];
    var n := 0;
    NoPipesYet(stages);
    for i := 0 to |stages|
      invariant |wires| == i && n == PipesBefore(stages, i)
      invariant forall k :: 0 <= k < i ==> wires[k] == WireOf(stages, k)
    {
      PipesNext(stages, i);
      var before := "";
      if i > 0 {
        before := stages[i - 1].operator;
      }
      var input, output := None, None;
      if before == "|" {
        input := Some(n - 1);
      }
      if stages[i].operator == "|" {
        output := Some(n);
        n := n + 1;
      }
      wires := wires + [Wire(input, output)];
    }
    WiresFit(stages, wires);
  }

  lemma NoPipesYet(stages: seq<Stage>)
    ensures PipesBefore(stages, 0) == 0
  {
  }

  lemma PipesNext(stages: seq<Stage>, i: nat)
    requires i < |stages|
    ensures PipesBefore(stages, i + 1) == PipesBefore(stages, i) + if stages[i].operator == "|" then 1 else 0
    ensures i > 0 && stages[i - 1].operator == "|" ==> PipesBefore(stages, i) == PipesBefore(stages, i - 1) + 1
  {
  }

  ghost predicate HasWriter(wires: seq<Wire>, k: nat) {
    exists i :: 0 <= i < |wires| && wires[i].output == Some(k)
  }

  /** The pipes are numbered in the order of their writers, each has one, and what comes next reads it. */
  lemma {:induction false} WiresFit(stages: seq<Stage>, wires: seq<Wire>)
    requires |wires| == |stages| && forall k :: 0 <= k < |stages| ==> wires[k] == WireOf(stages, k)
    ensures forall i :: 0 <= i < |wires| ==> (wires[i].output.Some? <==> stages[i].operator == "|")
    ensures forall i, j :: 0 <= i < |wires| && j == i + 1 && j < |wires| ==> wires[j].input == wires[i].output
    ensures wires != [] ==> wires[0].input == None
    ensures forall k: nat :: k < PipesBefore(stages, |stages|) ==> HasWriter(wires, k)
    ensures forall i, j :: 0 <= i < j < |wires| && wires[i].output.Some? && wires[j].output.Some? ==>
      wires[i].output.value < wires[j].output.value
    ensures forall i :: 0 <= i < |wires| ==>
      && (wires[i].input.Some? ==> wires[i].input.value < PipesBefore(stages, |stages|))
      && (wires[i].output.Some? ==> wires[i].output.value < PipesBefore(stages, |stages|))
  {
    hide PipesBefore;
    InRange(stages);
    forall i, j | 0 <= i < j < |wires| && wires[i].output.Some? && wires[j].output.Some?
      ensures wires[i].output.value < wires[j].output.value
    {
      PipesGrow(stages, i, j);
    }
    forall k: nat | k < PipesBefore(stages, |stages|) ensures HasWriter(wires, k) {
      var i := PipeHasWriter(stages, k, |stages|);
      assert wires[i] == WireOf(stages, i);
    }
  }

  function WireOf(stages: seq<Stage>, i: nat): Wire
    requires i < |stages|
  {
    Wire(if i > 0 && stages[i - 1].operator == "|" then Some(PipesBefore(stages, i - 1)) else None,
         if stages[i].operator == "|" then Some(PipesBefore(stages, i)) else None)
  }

  lemma {:induction false} PipesGrow(stages: seq<Stage>, i: nat, j: nat)
    requires i <= j <= |stages|
    ensures PipesBefore(stages, i) <= PipesBefore(stages, j)
    ensures i < j && stages[i].operator == "|" ==> PipesBefore(stages, i) < PipesBefore(stages, j)
    decreases j - i
  {
    if i < j {
      PipesGrow(stages, i, j - 1);
    }
  }

  lemma InRange(stages: seq<Stage>)
    ensures forall i :: 0 <= i < |stages| ==>
      var w, pipes := WireOf(stages, i), PipesBefore(stages, |stages|);
      (w.input.Some? ==> w.input.value < pipes) && (w.output.Some? ==> w.output.value < pipes)
  {
    forall i | 0 <= i < |stages|
      ensures var w, pipes := WireOf(stages, i), PipesBefore(stages, |stages|);
        (w.input.Some? ==> w.input.value < pipes) && (w.output.Some? ==> w.output.value < pipes)
    {
      PipesGrow(stages, i, |stages|);
      if i > 0 {
        PipesGrow(stages, i - 1, |stages|);
      }
    }
  }

  /** No pipe has two writers or two readers, and a pipe's reader comes right after its writer. */
  lemma PipeJoinsNeighbours(stages: seq<Stage>, i: nat, j: nat)
    requires i < |stages| && j < |stages|
    ensures WireOf(stages, i).output.Some? && WireOf(stages, i).output == WireOf(stages, j).output ==> i == j
    ensures WireOf(stages, i).output.Some? ==> (WireOf(stages, j).input == WireOf(stages, i).output <==> j == i + 1)
  {
    if i < j {
      PipesGrow(stages, i, j);
      PipesGrow(stages, i, j - 1);
    } else {
      PipesGrow(stages, j, i);
      if j > 0 {
        PipesGrow(stages, j - 1, i);
      }
    }
  }

  /** Every pipe has a writer, and a reader as well unless it belongs to a `|` with nothing after it. */
  lemma {:induction false} PipeHasWriter(stages: seq<Stage>, k: nat, n: nat) returns (i: nat)
    requires n <= |stages| && k < PipesBefore(stages, n)
    ensures i < n && WireOf(stages, i).output == Some(k)
  {
    if stages[n - 1].operator == "|" && PipesBefore(stages, n - 1) == k {
      i := n - 1;
    } else {
      i := PipeHasWriter(stages, k, n - 1);
    }
  }

  lemma EveryPipeIsRead(stages: seq<Stage>)
    requires stages != []
    ensures (forall k: nat :: k < PipesBefore(stages, |stages|) ==> HasReader(stages, k)) <==>
      stages[|stages| - 1].operator != "|"
  {
    var last := |stages| - 1;
    if stages[last].operator == "|" {
      var k := PipesBefore(stages, last);
      assert WireOf(stages, last).output == Some(k);
      forall j | 0 <= j < |stages|
        ensures WireOf(stages, j).input != Some(k)
      {
        PipeJoinsNeighbours(stages, last, j);
      }
      assert !HasReader(stages, k);
    } else {
      forall k: nat | k < PipesBefore(stages, |stages|)
        ensures HasReader(stages, k)
      {
        var i := PipeHasWriter(stages, k, |stages|);
        PipeJoinsNeighbours(stages, i, i + 1);
      }
    }
  }

  ghost predicate HasReader(stages: seq<Stage>, k: nat) {
    exists j :: 0 <= j < |stages| && WireOf(stages, j).input == Some(k)
  }
}
