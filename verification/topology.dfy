/**
 * The node's view of its group: who joined since the previous group, who
 * stayed, and the delayed, debounced adoption of a new group announced by
 * the group-discovery module.
 */
module Topology {
  import opened Bytes
  import opened Net
  import opened Node

  /** `GetNewNodes`: members of the current group, other than the node itself, absent from the previous group. */
  function GetNewNodes(s: NodeState): (r: seq<Member>)
    ensures forall m :: m in r <==> m in s.group && m.id != s.self && m !in s.previousGroup
    ensures |r| <= |s.group|
  {
    NewIn(s.group, s.previousGroup, s.self)
  }

  function NewIn(g: seq<Member>, prev: seq<Member>, self: int): (r: seq<Member>)
    ensures forall m :: m in r <==> m in g && m.id != self && m !in prev
    ensures |r| <= |g|
  {
    if |g| == 0 then []
    else (if g[0].id != self && g[0] !in prev then [g[0]] else []) + NewIn(g[1..], prev, self)
  }

  /** `GetNodesFromOldGroup`: members of the current group that were in the previous group too. */
  function GetNodesFromOldGroup(s: NodeState): (r: seq<Member>)
    ensures forall m :: m in r <==> m in s.group && m in s.previousGroup
    ensures |r| <= |s.group|
  {
    OldIn(s.group, s.previousGroup)
  }

  function OldIn(g: seq<Member>, prev: seq<Member>): (r: seq<Member>)
    ensures forall m :: m in r <==> m in g && m in prev
    ensures |r| <= |g|
  {
    if |g| == 0 then [] else (if g[0] in prev then [g[0]] else []) + OldIn(g[1..], prev)
  }

  /** Every member of the current group, other than the node itself, is either new or from the old group. */
  lemma NewOrOld(s: NodeState, m: Member)
    requires m in s.group && m.id != s.self
    ensures (m in GetNewNodes(s)) != (m in GetNodesFromOldGroup(s))
  {
  }

  /**
   * `ReceiveNewTopologyInfo`: the change counter advances, the nature of
   * the change is recorded, and the adoption is scheduled under the new
   * counter value.
   */
  function ReceiveNewTopologyInfo(s: NodeState, groupId: Bytes, group: seq<Member>, natChange: int): (r: NodeState)
    ensures r.change == s.change + 1 && r.lastChange == natChange
    ensures r.outbox == s.outbox + [ScheduleTopologyUpdate(r.change, groupId, group)]
    ensures r == s.(change := r.change, lastChange := r.lastChange, outbox := r.outbox)
  {
    var c := s.change + 1;
    s.(change := c, lastChange := natChange, outbox := s.outbox + [ScheduleTopologyUpdate(c, groupId, group)])
  }

  /** Appends g unless the register already holds it. */
  function Register(reg: seq<Bytes>, g: Bytes): (r: seq<Bytes>)
    ensures g in r
    ensures forall x :: x in r <==> x in reg || x == g
    ensures (forall i, j :: 0 <= i < j < |reg| ==> reg[i] != reg[j]) ==> forall i, j :: 0 <= i < j < |r| ==> r[i] != r[j]
  {
    if g in reg then reg else reg + [g]
  }

  /**
   * `UpdateTopologyInfo`: an update that a later announcement superseded,
   * or one that does not change the group id, does nothing.  Otherwise the
   * group id is adopted and registered, the current group becomes the
   * previous one, and after a merge the branch-recovery table is cleared
   * and the merge is armed.
   */
  function UpdateTopologyInfo(s: NodeState, tmpChange: nat, groupId: Bytes, group: seq<Member>): (r: NodeState)
    ensures tmpChange != s.change || groupId == s.groupId ==> r == s
    ensures tmpChange == s.change && groupId != s.groupId ==>
      && r.groupId == groupId && r.group == group && r.previousGroup == s.group
      && r.groupIdRegister == Register(s.groupIdRegister, groupId)
      && (s.lastChange == MERGE ==> r.recoverBranch == [] && r.startMerge)
      && (s.lastChange != MERGE ==> r.recoverBranch == s.recoverBranch && r.startMerge == s.startMerge)
      && r == s.(groupId := r.groupId, group := r.group, previousGroup := r.previousGroup,
                 groupIdRegister := r.groupIdRegister, recoverBranch := r.recoverBranch, startMerge := r.startMerge)
  {
    if s.change == tmpChange && groupId != s.groupId then
      var s1 := s.(groupId := groupId, groupIdRegister := Register(s.groupIdRegister, groupId),
                   previousGroup := s.group, group := group);
      if s.lastChange == MERGE then s1.(recoverBranch := [], startMerge := true) else s1
    else s
  }

  /** Of two announcements in a row, the update scheduled by the first is ignored. */
  lemma SupersededUpdateIgnored(s: NodeState, g1: Bytes, m1: seq<Member>, n1: int, g2: Bytes, m2: seq<Member>, n2: int)
    ensures var s2 := ReceiveNewTopologyInfo(ReceiveNewTopologyInfo(s, g1, m1, n1), g2, m2, n2);
      UpdateTopologyInfo(s2, s.change + 1, g1, m1) == s2
  {
  }
}
