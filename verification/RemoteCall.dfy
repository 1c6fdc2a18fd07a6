/** Calling functions in a traced process by single-stepping (shsrv/pt.c), and the
    registers elfldr_prepare_exec leaves (shsrv/elfldr.c). */
module RemoteCall {
  import opened Words

  /** The registers the calls touch; `others` stands for the rest of the file. */
  datatype Regs = Regs(rip: u64, rsp: u64, rax: u64, rdi: u64, rsi: u64, rdx: u64,
                       rcx: u64, r8: u64, r9: u64, r10: u64, others: seq<u64>)

  // ---------------------------------------------------------------- what a callee does

  /** The instructions of a function between entry and its own return. A nested
      call pushes a return address, runs an inner body and returns. Each register
      value is the one after the instruction. */
  datatype Body =
    | Done
    | Instr(regs: Regs, next: Body)
    | Nested(enter: Regs, inner: Body, leave: Regs, next: Body)

  function Steps(b: Body): seq<Regs> {
    match b
    case Done => []
    case Instr(regs, next) => [regs] + Steps(next)
    case Nested(enter, inner, leave, next) => [enter] + Steps(inner) + [leave] + Steps(next)
  }

  /** Stack discipline: a function does not pop past the return address at `limit`,
      a call goes 8 down from the current `sp`, and a return comes 8 back up. */
  ghost predicate Disciplined(b: Body, sp: u64, limit: u64) {
    match b
    case Done => true
    case Instr(regs, next) => regs.rsp <= limit && Disciplined(next, regs.rsp, limit)
    case Nested(enter, inner, leave, next) =>
      && enter.rsp == sp - 8 && Disciplined(inner, enter.rsp, enter.rsp)
      && leave.rsp == enter.rsp + 8 && Disciplined(next, leave.rsp, limit)
  }

  /** However deeply calls nest, the stack pointer stays at or below the entry
      value until the function's own return. */
  lemma {:induction false} StaysBelowEntry(b: Body, sp: u64, limit: u64)
    requires sp <= limit && Disciplined(b, sp, limit)
    ensures forall k :: 0 <= k < |Steps(b)| ==> Steps(b)[k].rsp <= limit
  {
    match b
    case Done =>
    case Instr(regs, next) =>
      StaysBelowEntry(next, regs.rsp, limit);
    case Nested(enter, inner, leave, next) =>
      StaysBelowEntry(inner, enter.rsp, enter.rsp);
      StaysBelowEntry(next, leave.rsp, limit);
  }

  /** A whole call: the body, then the return that pops the entry address. */
  datatype Run = Run(body: Body, ret: Regs)

  ghost predicate IsCall(run: Run, sp: u64) {
    Disciplined(run.body, sp, sp) && run.ret.rsp == sp + 8
  }

  function Trace(run: Run): seq<Regs> {
    Steps(run.body) + [run.ret]
  }

  /** The first state above the entry value is the matching return. */
  lemma ReturnIsFirstAbove(run: Run, sp: u64)
    requires IsCall(run, sp)
    ensures var t := Trace(run);
      t[|t| - 1].rsp > sp && forall k :: 0 <= k < |t| - 1 ==> t[k].rsp <= sp
  {
    StaysBelowEntry(run.body, sp, sp);
  }

  // ---------------------------------------------------------------- pt_call, pt_syscall

  datatype Request =
    | Call(addr: u64, a: seq<u64>)
    | Syscall(gate: u64, sysno: u64, a: seq<u64>)

  datatype Result = Failed | Returned(rax: u64)

  /** What the code at the entry address does, as a function of the registers it
      starts with: a call that obeys the stack discipline. */
  type Callee = Regs -> Run

  ghost predicate Behaves(callee: Callee, sp: u64) {
    forall x: Regs :: x.rsp == sp ==> IsCall(callee(x), sp)
  }

  predicate CanRun(q: Request) {
    q.Syscall? ==> q.gate != 0
  }

  class Tracee {
    var regs: Regs
    /** The word elfldr_prepare_exec pushes, by address. */
    var stack: map<int, u64>
    /** No ptrace request fails. */
    const clean: bool

    /** Saves the registers, jumps, steps until the stack pointer rises above the
        saved one, restores. `entered` are the registers the callee starts with: a
        call takes its arguments in rdi, rsi, rdx, rcx, r8 and r9; a system call
        enters 0xa behind the resolved symbol with its number in rax and its fourth
        argument in r10. Any ptrace request may fail. */
    method PtCall(q: Request, callee: Callee) returns (r: Result, ghost entered: Regs, ghost steps: nat)
      requires |q.a| == 6 && Behaves(callee, regs.rsp)
      modifies this`regs
      ensures q.Call? ==>
        entered == old(regs).(rip := q.addr, rdi := q.a[0], rsi := q.a[1], rdx := q.a[2],
                              rcx := q.a[3], r8 := q.a[4], r9 := q.a[5])
      ensures q.Syscall? ==>
        entered == old(regs).(rip := Wrap(q.gate + 0xa), rax := q.sysno, rdi := q.a[0], rsi := q.a[1],
                              rdx := q.a[2], r10 := q.a[3], r8 := q.a[4], r9 := q.a[5])
      ensures r.Returned? ==> regs == old(regs) && r.rax == callee(entered).ret.rax
      ensures r.Returned? ==> steps == |Trace(callee(entered))|
      ensures r.Failed? ==> regs == old(regs) || regs == entered || regs in Trace(callee(entered))
      ensures clean ==> (r.Returned? <==> CanRun(q))
      ensures !CanRun(q) ==> r.Failed? && regs == old(regs)
    {
      var bak := regs;
      var jmp := if q.Call? then
        bak.(rip := q.addr, rdi := q.a[0], rsi := q.a[1], rdx := q.a[2], rcx := q.a[3], r8 := q.a[4], r9 := q.a[5])
      else
        bak.(rip := Wrap(q.gate + 0xa), rax := q.sysno, rdi := q.a[0], rsi := q.a[1], rdx := q.a[2], r10 := q.a[3],
             r8 := q.a[4], r9 := q.a[5]);
      entered, steps := jmp, 0;
      r := Failed;
      if !CanRun(q) {
        return; // the symbol did not resolve
      }
      var failed: bool := *;
      if failed && !clean {
        return; // pt_getregs or pt_setregs failed
      }
      regs := jmp;
      var run := callee(jmp);
      var trace := Trace(run);
      assert IsCall(run, bak.rsp);
      ReturnIsFirstAbove(run, bak.rsp);
      var k := 0;
      while jmp.rsp <= bak.rsp
        invariant 0 <= k <= |trace| && steps == k && regs == jmp
        invariant k > 0 ==> jmp == trace[k - 1]
        invariant k == 0 ==> jmp == entered
        decreases |trace| - k
      {
        failed := *;
        if failed && !clean {
          return; // pt_step failed
        }
        regs := trace[k];
        k := k + 1;
        steps := k;
        failed := *;
        if failed && !clean {
          return; // pt_getregs failed
        }
        jmp := regs;
      }
      failed := *;
      if failed && !clean {
        return; // pt_setregs failed
      }
      regs := bak;
      r := Returned(jmp.rax);
    }

    /** Any number of remote calls, each with the registers as they were before the
        first; stops at the first that fails. */
    method CallAll(requests: seq<Request>, callees: seq<Callee>)
      returns (ok: bool, results: seq<u64>, ghost entered: seq<Regs>)
      requires |requests| == |callees|
      requires forall k :: 0 <= k < |requests| ==> |requests[k].a| == 6 && Behaves(callees[k], regs.rsp)
      modifies this`regs
      ensures ok ==> regs == old(regs) && |results| == |entered| == |requests|
      ensures ok ==> forall k :: 0 <= k < |requests| ==>
        results[k] == callees[k](entered[k]).ret.rax && EntersWith(old(regs), requests[k], entered[k])
      ensures clean ==> (ok <==> forall q :: q in requests ==> CanRun(q))
    {
      hide Behaves, Trace;
      results, entered := [], [];
      var k := 0;
      while k < |requests|
        invariant 0 <= k <= |requests| && regs == old(regs) && |results| == |entered| == k
        invariant forall i :: 0 <= i < k ==>
          results[i] == callees[i](entered[i]).ret.rax && EntersWith(old(regs), requests[i], entered[i])
        invariant clean ==> forall i :: 0 <= i < k ==> CanRun(requests[i])
      {
        var r, e, _ := PtCall(requests[k], callees[k]);
        if r.Failed? {
          assert requests[k] in requests;
          ok := false;
          return;
        }
        results, entered := results + [r.rax], entered + [e];
        k := k + 1;
      }
      ok := true;
    }

    /** elfldr_prepare_exec with the loader and argument setup reduced to the remote
        calls they make and the addresses they return (0 is failure). */
    method PrepareExec(requests: seq<Request>, callees: seq<Callee>, entry: u64, args: u64) returns (rc: int)
      requires |requests| == |callees| && 24 <= regs.rsp
      requires forall k :: 0 <= k < |requests| ==> |requests[k].a| == 6 && Behaves(callees[k], regs.rsp)
      modifies this
      ensures rc == 0 || rc == -1
      ensures rc == 0 ==> entry != 0 && args != 0
      ensures clean && entry != 0 && args != 0 ==> rc == 0
      // only rsp, rip and rdi change
      ensures rc == 0 ==> regs == old(regs).(rsp := regs.rsp, rip := entry, rdi := args)
      // the stack is as at a function entry: rsp + 8 is a multiple of 16, the new
      // top is the nearest such slot below the old one ...
      ensures rc == 0 ==> (regs.rsp + 8) % 16 == 0 && old(regs).rsp - 24 < regs.rsp <= old(regs).rsp - 8
      // ... and holds the address the process was stopped at, if the unchecked
      // store succeeded
      ensures rc == 0 ==> stack == old(stack)[regs.rsp as int := old(regs).rip] || stack == old(stack)
      ensures rc == 0 && clean ==> stack == old(stack)[regs.rsp as int := old(regs).rip]
    {
      var failed: bool := *;
      if failed && !clean {
        return -1; // pt_getregs failed
      }
      var r := regs;
      var _, _, _ := CallAll(requests, callees); // the two addresses tell whether setup succeeded
      if entry == 0 || args == 0 {
        return -1;
      }
      r := r.(rsp := r.rsp - r.rsp % 16);
      failed := *;
      if !failed || clean {
        stack := stack[r.rsp - 8 := r.rip]; // pt_setlong, whose result is not checked
      }
      r := r.(rsp := r.rsp - 8);
      r := r.(rip := entry, rdi := args);
      failed := *;
      if failed && !clean {
        return -1; // pt_setregs failed
      }
      regs := r;
      return 0;
    }
  }

  /** The registers PtCall enters a callee with. */
  ghost predicate EntersWith(r: Regs, q: Request, x: Regs)
    requires |q.a| == 6
  {
    match q
    case Call(addr, a) =>
      x == r.(rip := addr, rdi := a[0], rsi := a[1], rdx := a[2], rcx := a[3], r8 := a[4], r9 := a[5])
    case Syscall(gate, sysno, a) =>
      x == r.(rip := Wrap(gate + 0xa), rax := sysno, rdi := a[0], rsi := a[1], rdx := a[2], r10 := a[3],
              r8 := a[4], r9 := a[5])
  }
}
