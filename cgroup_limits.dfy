/**
 * limitProcessCreation and write_rule: create the container's cgroup and write
 * its controller, limit and membership files, in a fixed order.
 *
 * The file system's answers are inputs: the result of `mkdir`, and for the i-th
 * call of write_rule whether its `open` and its `write` succeed. The model
 * records every rule it attempts and how the attempt ended.
 */
module CgroupLimits {
  import opened Wrappers
  import Decimal

  /** The cgroup v2 mount point, and the container's group below it. */
  const CgroupRoot: string := "/sys/fs/cgroup/"
  const ContainerGroup: string := CgroupRoot + "container"

  /** Linux's errno for "file exists". */
  const EEXIST: int := 17

  datatype MkdirResult = MkdirOk | MkdirFailed(errno: int)

  /** One cgroup file write: the path and the text written to it. */
  datatype Rule = Rule(path: string, value: string)

  /** What the OS answers to one write_rule call. */
  datatype RuleIo = RuleIo(openOk: bool, writeOk: bool)

  datatype WriteStatus = Written | OpenFailed | WriteFailed

  datatype Attempt = Attempt(rule: Rule, status: WriteStatus)

  /**
   * write_rule: open the file for writing, write the value, close it. A failed
   * open skips the write; every failure is only reported, never returned.
   */
  method WriteRule(path: string, value: string, io: RuleIo) returns (a: Attempt)
    ensures a.rule == Rule(path, value)
    ensures a.status == OpenFailed <==> !io.openOk
    ensures a.status == WriteFailed <==> io.openOk && !io.writeOk
    ensures a.status == Written <==> io.openOk && io.writeOk
  {
    if !io.openOk {
      return Attempt(Rule(path, value), OpenFailed);
    }
    var status := if io.writeOk then Written else WriteFailed;
    a := Attempt(Rule(path, value), status);
  }

  /** mkdir succeeded, or failed only because the directory already exists. */
  predicate ProceedsAfterMkdir(m: MkdirResult) {
    m.MkdirOk? || m.errno == EEXIST
  }

  /** A file directly inside the container's group directory. */
  function InGroup(name: string): string {
    ContainerGroup + "/" + name
  }

  /** The rules limitProcessCreation writes, in the order it writes them. */
  function LimitRules(pid: int): (rules: seq<Rule>)
    ensures |rules| == 6
  {
    [ Rule(CgroupRoot + "cgroup.subtree_control", "+pids +cpu +memory"),
      Rule(ContainerGroup + "/memory.max", "10M"),
      Rule(ContainerGroup + "/memory.swap.max", "0"),
      Rule(ContainerGroup + "/cpu.max", "25000 100000"),
      Rule(ContainerGroup + "/pids.max", "5"),
      Rule(ContainerGroup + "/cgroup.procs", Decimal.Show(pid)) ]
  }

  /**
   * limitProcessCreation: stop when mkdir fails for any reason but EEXIST;
   * otherwise attempt every rule, in order, whatever became of the earlier ones.
   */
  method LimitProcessCreation(mkdir: MkdirResult, pid: int, io: nat -> RuleIo) returns (log: seq<Attempt>)
    ensures !ProceedsAfterMkdir(mkdir) ==> log == []
    ensures ProceedsAfterMkdir(mkdir) ==> |log| == |LimitRules(pid)|
    ensures forall i :: 0 <= i < |log| ==> log[i].rule == LimitRules(pid)[i]
    ensures forall i :: 0 <= i < |log| ==>
      (log[i].status == Written <==> io(i).openOk && io(i).writeOk)
      && (log[i].status == OpenFailed <==> !io(i).openOk)
  {
    log := [];
    if !ProceedsAfterMkdir(mkdir) {
      return;
    }
    var a := WriteRule(CgroupRoot + "cgroup.subtree_control", "+pids +cpu +memory", io(0));
    log := log + [a];
    a := WriteRule(ContainerGroup + "/memory.max", "10M", io(1));
    log := log + [a];
    a := WriteRule(ContainerGroup + "/memory.swap.max", "0", io(2));
    log := log + [a];
    a := WriteRule(ContainerGroup + "/cpu.max", "25000 100000", io(3));
    log := log + [a];
    a := WriteRule(ContainerGroup + "/pids.max", "5", io(4));
    log := log + [a];
    var pidText := Decimal.Show(pid);
    a := WriteRule(ContainerGroup + "/cgroup.procs", pidText, io(5));
    log := log + [a];
  }

  /** The controllers are enabled on the parent group first; every later rule targets the container's own group. */
  lemma RulesTargets(pid: int)
    ensures |LimitRules(pid)| == 6
    ensures LimitRules(pid)[0].path == CgroupRoot + "cgroup.subtree_control"
    ensures forall i :: 1 <= i < 6 ==>
      exists name :: '/' !in name && LimitRules(pid)[i].path == InGroup(name)
  {
    var rules := LimitRules(pid);
    assert rules[1].path == InGroup("memory.max");
    assert rules[2].path == InGroup("memory.swap.max");
    assert rules[3].path == InGroup("cpu.max");
    assert rules[4].path == InGroup("pids.max");
    assert rules[5].path == InGroup("cgroup.procs");
  }

  /** The process is attached by the last write, and what is written reads back as its pid. */
  lemma AttachesLast(pid: int)
    ensures LimitRules(pid)[|LimitRules(pid)| - 1].path == InGroup("cgroup.procs")
    ensures Decimal.Parse(LimitRules(pid)[|LimitRules(pid)| - 1].value) == Some(pid)
  {
    var rules := LimitRules(pid);
    assert |rules| == 6 && rules[5].value == Decimal.Show(pid);
    assert rules[5].path == InGroup("cgroup.procs");
    Decimal.ParseShow(pid);
  }

  /** No write before the last goes to `cgroup.procs`: every limit is in place before the process is attached. */
  lemma ProcsNotBeforeLast(pid: int)
    ensures forall i :: 0 <= i < |LimitRules(pid)| - 1 ==> LimitRules(pid)[i].path != InGroup("cgroup.procs")
  {
    var rules := LimitRules(pid);
    forall i | 0 <= i < 5 ensures rules[i].path != InGroup("cgroup.procs") {
      var p := InGroup("cgroup.procs");
      if i == 0 {
        assert rules[0].path[|CgroupRoot| + 1] == 'g' != p[|CgroupRoot| + 1];
      } else {
        assert |rules[i].path| != |p|;
      }
    }
  }
}
