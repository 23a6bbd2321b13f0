/**
 * The native launcher: a small Windows program that starts the game with an access-control
 * list that lets the launcher's user into the new process, waits until the game has a window,
 * then gives the game process the launcher's own ACL and returns the game's process id. The
 * operating system is a class that answers each call from a fixed record and logs the calls
 * it receives, so the staging is stated as the log of calls and the value returned.
 */
module NativeLauncher {
  import opened Wrappers
  import opened Ints

  /** A window handle; EnumWindows never passes a null one. */
  type Hwnd = h: nat | h > 0 witness 1

  /** A top-level window and the id of the process that owns it. */
  datatype Window = Window(handle: Hwnd, owner: uint32)

  /** How CreateProcess answers: the new process, or the error GetLastError then reports. */
  datatype Creation = Created(processId: uint32) | CreateFailed(error: uint32)

  /**
   * The answers of the operating system for one launch: for each checked call, None when it
   * succeeds and the code GetLastError then reports when it fails; whether SetEntriesInAcl
   * builds the new ACL; and how CreateProcess answers. The windows each poll of the wait finds
   * are given beside these, one sequence per poll in enumeration order.
   */
  datatype OsAnswers = OsAnswers(
    userName: Option<uint32>,
    aclBuilt: bool,
    initDescriptor: Option<uint32>,
    setDacl: Option<uint32>,
    creation: Creation)

  /** The calls the launcher makes into the operating system. */
  datatype Call =
    | GetUserName
    | SetEntriesInAcl
    | InitializeSecurityDescriptor
    | SetSecurityDescriptorDacl(aclSet: bool)
    | CreateProcess(application: seq<uint16>, commandLine: seq<uint16>)
    | EnumWindows
    | Sleep(milliseconds: nat)
    | GetSecurityInfo
    | SetSecurityInfo(processId: uint32)

  // ---- The command line ----

  /** Copying a char into a wchar_t: char is signed, so a byte from 0x80 on is sign-extended. */
  function Widen(b: uint8): (w: uint16)
    ensures b < 0x80 ==> w == b
    ensures w % 0x100 == b
  {
    if b < 0x80 then b else b + 0xFF00
  }

  /** std::copy of a narrow string into a wide one of the same length. */
  function WideString(s: seq<uint8>): (w: seq<uint16>)
    ensures |w| == |s|
    ensures forall i :: 0 <= i < |s| ==> w[i] % 0x100 == s[i]
  {
    seq(|s|, i requires 0 <= i < |s| => Widen(s[i]))
  }

  /** `app_w + L" " + arg_w`. */
  function CommandLine(app: seq<uint8>, arg: seq<uint8>): seq<uint16>
  {
    WideString(app) + [0x20] + WideString(arg)
  }

  /** The wide command line is the narrow "app arg" widened character by character; ASCII characters keep their codes. */
  lemma {:induction false} CommandLineIsWidened(app: seq<uint8>, arg: seq<uint8>)
    ensures CommandLine(app, arg) == WideString(app + [0x20] + arg)
    ensures (forall i :: 0 <= i < |app| ==> app[i] < 0x80) && (forall i :: 0 <= i < |arg| ==> arg[i] < 0x80) ==>
      forall i :: 0 <= i < |app| + 1 + |arg| ==> CommandLine(app, arg)[i] == (app + [0x20] + arg)[i]
  {
    var narrow := app + [0x20] + arg;
    assert forall i :: 0 <= i < |narrow| ==> CommandLine(app, arg)[i] == Widen(narrow[i]) by {
      forall i | 0 <= i < |narrow|
        ensures CommandLine(app, arg)[i] == Widen(narrow[i])
      {
        if i < |app| {
        } else if i == |app| {
        } else {
          assert narrow[i] == arg[i - |app| - 1];
        }
      }
    }
  }

  // ---- The window search ----

  /** What the callback and has_window share. */
  class HandleData {
    var processId: uint32
    /** The handle found, 0 while none is. */
    var windowHandle: nat

    constructor(processId: uint32)
      ensures this.processId == processId && windowHandle == 0
    {
      this.processId := processId;
      windowHandle := 0;
    }
  }

  /** enum_windows_callback: go on past a window another process owns; record a window the process owns and stop. */
  method EnumWindowsCallback(w: Window, data: HandleData) returns (more: bool)
    modifies data
    ensures data.processId == old(data.processId)
    ensures more <==> w.owner != data.processId
    ensures data.windowHandle == if more then old(data.windowHandle) else w.handle
  {
    if data.processId != w.owner {
      return true;
    }
    data.windowHandle := w.handle;
    return false;
  }

  /** The first window the process owns, in enumeration order. */
  function FirstOwned(windows: seq<Window>, pid: uint32): Option<Hwnd>
  {
    if windows == [] then None
    else if windows[0].owner == pid then Some(windows[0].handle)
    else FirstOwned(windows[1..], pid)
  }

  /** Window `i` is owned by the process, and no window before it is. */
  predicate FirstOwnedAt(windows: seq<Window>, pid: uint32, i: nat)
  {
    i < |windows| && windows[i].owner == pid && forall j :: 0 <= j < i ==> windows[j].owner != pid
  }

  /** The search finds a window exactly when the process owns one, and then the first it owns. */
  lemma {:induction false} FirstOwnedIsFirst(windows: seq<Window>, pid: uint32)
    ensures FirstOwned(windows, pid).Some? <==> exists i :: 0 <= i < |windows| && windows[i].owner == pid
    ensures FirstOwned(windows, pid).Some? ==>
      exists i: nat :: FirstOwnedAt(windows, pid, i) && windows[i].handle == FirstOwned(windows, pid).value
    decreases |windows|
  {
    if windows != [] && windows[0].owner != pid {
      FirstOwnedIsFirst(windows[1..], pid);
      if FirstOwned(windows, pid).Some? {
        var i: nat :| FirstOwnedAt(windows[1..], pid, i) && windows[1..][i].handle == FirstOwned(windows, pid).value;
        assert FirstOwnedAt(windows, pid, i + 1);
      }
      if exists i :: 0 <= i < |windows| && windows[i].owner == pid {
        var i :| 0 <= i < |windows| && windows[i].owner == pid;
        assert windows[1..][i - 1].owner == pid;
      }
    } else if windows != [] {
      assert FirstOwnedAt(windows, pid, 0);
    }
  }

  /** The operating system: its answers for this launch, the calls made so far and the polls not made yet. */
  class Os {
    const answers: OsAnswers
    var trace: seq<Call>
    var pending: seq<seq<Window>>

    constructor(answers: OsAnswers, polls: seq<seq<Window>>)
      ensures this.answers == answers && trace == [] && pending == polls
    {
      this.answers := answers;
      trace := [];
      pending := polls;
    }

    method CallGetUserName() returns (error: Option<uint32>)
      modifies this
      ensures trace == old(trace) + [GetUserName] && pending == old(pending)
      ensures error == answers.userName
    {
      trace := trace + [GetUserName];
      error := answers.userName;
    }

    /** SetEntriesInAcl: whether the new ACL was built; the launcher does not look at the answer. */
    method CallSetEntriesInAcl() returns (built: bool)
      modifies this
      ensures trace == old(trace) + [SetEntriesInAcl] && pending == old(pending)
      ensures built == answers.aclBuilt
    {
      trace := trace + [SetEntriesInAcl];
      built := answers.aclBuilt;
    }

    method CallInitializeSecurityDescriptor() returns (error: Option<uint32>)
      modifies this
      ensures trace == old(trace) + [InitializeSecurityDescriptor] && pending == old(pending)
      ensures error == answers.initDescriptor
    {
      trace := trace + [InitializeSecurityDescriptor];
      error := answers.initDescriptor;
    }

    method CallSetSecurityDescriptorDacl(aclSet: bool) returns (error: Option<uint32>)
      modifies this
      ensures trace == old(trace) + [SetSecurityDescriptorDacl(aclSet)] && pending == old(pending)
      ensures error == answers.setDacl
    {
      trace := trace + [SetSecurityDescriptorDacl(aclSet)];
      error := answers.setDacl;
    }

    method CallCreateProcess(application: seq<uint16>, commandLine: seq<uint16>) returns (c: Creation)
      modifies this
      ensures trace == old(trace) + [CreateProcess(application, commandLine)] && pending == old(pending)
      ensures c == answers.creation
    {
      trace := trace + [CreateProcess(application, commandLine)];
      c := answers.creation;
    }

    /** EnumWindows: the callback on each window of the next poll, until it asks to stop. */
    method CallEnumWindows(data: HandleData)
      requires pending != []
      modifies this, data
      ensures trace == old(trace) + [EnumWindows] && pending == old(pending[1..])
      ensures data.processId == old(data.processId)
      ensures var found := FirstOwned(old(pending[0]), data.processId);
        data.windowHandle == if found.Some? then found.value else old(data.windowHandle)
    {
      var windows := pending[0];
      var i := 0;
      var more := true;
      while i < |windows| && more
        invariant 0 <= i <= |windows|
        invariant trace == old(trace) && pending == old(pending)
        invariant data.processId == old(data.processId)
        invariant more ==> FirstOwned(windows, data.processId) == FirstOwned(windows[i..], data.processId)
        invariant more ==> data.windowHandle == old(data.windowHandle)
        invariant !more ==> data.windowHandle > 0 && FirstOwned(windows, data.processId) == Some(data.windowHandle as Hwnd)
      {
        assert windows[i..][1..] == windows[i + 1..];
        more := EnumWindowsCallback(windows[i], data);
        i := i + 1;
      }
      if more {
        assert windows[i..] == [];
      }
      trace := trace + [EnumWindows];
      pending := pending[1..];
    }

    method CallSleep(milliseconds: nat)
      modifies this
      ensures trace == old(trace) + [Sleep(milliseconds)] && pending == old(pending)
    {
      trace := trace + [Sleep(milliseconds)];
    }

    /** GetSecurityInfo of the launcher's own process, then SetSecurityInfo of its ACL on the game's; the answers are not looked at. */
    method CallRebindAcl(processId: uint32)
      modifies this
      ensures trace == old(trace) + [GetSecurityInfo, SetSecurityInfo(processId)] && pending == old(pending)
    {
      trace := trace + [GetSecurityInfo];
      trace := trace + [SetSecurityInfo(processId)];
    }
  }

  /** has_window: a fresh handle_data, one enumeration, and whether a handle was recorded. */
  method HasWindow(os: Os, processId: uint32) returns (r: bool)
    requires os.pending != []
    modifies os
    ensures os.trace == old(os.trace) + [EnumWindows] && os.pending == old(os.pending[1..])
    ensures r <==> FirstOwned(old(os.pending[0]), processId).Some?
    ensures r <==> exists i :: 0 <= i < |old(os.pending[0])| && old(os.pending[0])[i].owner == processId
  {
    FirstOwnedIsFirst(os.pending[0], processId);
    var data := new HandleData(processId);
    os.CallEnumWindows(data);
    r := data.windowHandle != 0;
  }

  // ---- The staging ----

  /** Whether the wait `while (!has_window(pid)) Sleep(10);` ends within the polls given. */
  predicate WaitSees(polls: seq<seq<Window>>, pid: uint32)
  {
    polls != [] && (FirstOwned(polls[0], pid).Some? || WaitSees(polls[1..], pid))
  }

  /** The calls the wait makes within the polls given: an enumeration per poll, and a 10 ms sleep after each that finds nothing. */
  function WaitCalls(polls: seq<seq<Window>>, pid: uint32): seq<Call>
  {
    if polls == [] then []
    else if FirstOwned(polls[0], pid).Some? then [EnumWindows]
    else [EnumWindows, Sleep(10)] + WaitCalls(polls[1..], pid)
  }

  /** Poll `k` is the first that finds a window of the process. */
  predicate FirstSeenAt(polls: seq<seq<Window>>, pid: uint32, k: nat)
  {
    k < |polls| && FirstOwned(polls[k], pid).Some? && forall j :: 0 <= j < k ==> FirstOwned(polls[j], pid).None?
  }

  /** The calls of `k` polls that find nothing: each an enumeration and a 10 ms sleep. */
  function Unseen(k: nat): (calls: seq<Call>)
    ensures |calls| == 2 * k
  {
    if k == 0 then [] else Unseen(k - 1) + [EnumWindows, Sleep(10)]
  }

  /** The wait sees a window exactly when some poll finds one. */
  lemma {:induction false} WaitSeesSomePoll(polls: seq<seq<Window>>, pid: uint32)
    ensures WaitSees(polls, pid) <==> exists k :: 0 <= k < |polls| && FirstOwned(polls[k], pid).Some?
    decreases |polls|
  {
    if polls != [] {
      var tail := polls[1..];
      WaitSeesSomePoll(tail, pid);
      if exists k :: 0 <= k < |polls| && FirstOwned(polls[k], pid).Some? {
        var k :| 0 <= k < |polls| && FirstOwned(polls[k], pid).Some?;
        if k > 0 {
          assert tail[k - 1] == polls[k];
        }
      }
      if WaitSees(tail, pid) {
        var k :| 0 <= k < |tail| && FirstOwned(tail[k], pid).Some?;
        assert polls[k + 1] == tail[k];
      }
    }
  }

  /** A wait that sees a window stops right after the first poll that finds one, every earlier poll followed by a sleep. */
  lemma {:induction false} WaitStopsAtFirstWindow(polls: seq<seq<Window>>, pid: uint32)
    requires WaitSees(polls, pid)
    ensures exists k: nat :: FirstSeenAt(polls, pid, k) && WaitCalls(polls, pid) == Unseen(k) + [EnumWindows]
    decreases |polls|
  {
    if FirstOwned(polls[0], pid).None? {
      var tail := polls[1..];
      WaitStopsAtFirstWindow(tail, pid);
      var k: nat :| FirstSeenAt(tail, pid, k) && WaitCalls(tail, pid) == Unseen(k) + [EnumWindows];
      UnseenCons(k);
      assert FirstSeenAt(polls, pid, k + 1) by {
        forall j | 0 <= j < k + 1
          ensures FirstOwned(polls[j], pid).None?
        {
          if j > 0 {
            assert polls[j] == tail[j - 1];
          }
        }
      }
    } else {
      assert FirstSeenAt(polls, pid, 0);
      assert Unseen(0) + [EnumWindows] == [EnumWindows];
    }
  }

  /** A wait that sees no window polls every time given and sleeps after each. */
  lemma {:induction false} WaitSleepsThroughout(polls: seq<seq<Window>>, pid: uint32)
    requires !WaitSees(polls, pid)
    ensures WaitCalls(polls, pid) == Unseen(|polls|)
    decreases |polls|
  {
    if polls != [] {
      WaitSleepsThroughout(polls[1..], pid);
      UnseenCons(|polls| - 1);
    }
  }

  lemma {:induction false} UnseenCons(k: nat)
    ensures [EnumWindows, Sleep(10)] + Unseen(k) == Unseen(k + 1)
    decreases k
  {
    if k > 0 {
      UnseenCons(k - 1);
    }
  }

  /**
   * launch_game as the calls made and the value returned: a failing checked call returns its
   * error at once; after CreateProcess the launcher waits for a window of the game; only then
   * does it rebind the ACL and return the process id. None stands for a wait that has not
   * ended when the polls given run out.
   */
  function Launch(a: OsAnswers, polls: seq<seq<Window>>, app: seq<uint8>, arg: seq<uint8>): (res: (Option<int32>, seq<Call>))
  {
    var checked := CheckCalls(a);
    if CheckError(a).Some? then (Some(ToInt32(CheckError(a).value)), checked)
    else
      var created := checked + [CreateProcess(WideString(app), CommandLine(app, arg))];
      if a.creation.CreateFailed? then (Some(ToInt32(a.creation.error)), created)
      else
        var attached := Attach(polls, a.creation.processId);
        (attached.0, created + attached.1)
  }

  /** After CreateProcess: the wait, then, once a window of the game is seen, the ACL rebinding and the process id. */
  function Attach(polls: seq<seq<Window>>, pid: uint32): (res: (Option<int32>, seq<Call>))
  {
    if !WaitSees(polls, pid) then (None, WaitCalls(polls, pid))
    else (Some(ToInt32(pid)), WaitCalls(polls, pid) + [GetSecurityInfo, SetSecurityInfo(pid)])
  }

  /** The error of the first of GetUserName, InitializeSecurityDescriptor and SetSecurityDescriptorDacl that fails. */
  function CheckError(a: OsAnswers): (e: Option<uint32>)
    ensures e.None? <==> ChecksPass(a)
  {
    if a.userName.Some? then a.userName
    else if a.initDescriptor.Some? then a.initDescriptor
    else a.setDacl
  }

  /** The calls made up to the first failing check, or up to SetSecurityDescriptorDacl when none fails. */
  function CheckCalls(a: OsAnswers): seq<Call>
  {
    if a.userName.Some? then [GetUserName]
    else
      var checks := [GetUserName, SetEntriesInAcl, InitializeSecurityDescriptor];
      if a.initDescriptor.Some? then checks
      else checks + [SetSecurityDescriptorDacl(a.aclBuilt)]
  }

  /** Building the security descriptor: GetUserName, SetEntriesInAcl, InitializeSecurityDescriptor, SetSecurityDescriptorDacl. */
  method PrepareSecurity(os: Os) returns (error: Option<uint32>)
    modifies os
    ensures error == CheckError(os.answers)
    ensures os.trace == old(os.trace) + CheckCalls(os.answers) && os.pending == old(os.pending)
  {
    error := os.CallGetUserName();
    if error.Some? {
      return;
    }
    var aclBuilt := os.CallSetEntriesInAcl();
    error := os.CallInitializeSecurityDescriptor();
    if error.Some? {
      return;
    }
    error := os.CallSetSecurityDescriptorDacl(aclBuilt);
  }

  /** One turn of the wait: has_window, and Sleep(10) when it finds nothing. */
  method PollOnce(os: Os, pid: uint32) returns (has: bool)
    requires os.pending != []
    modifies os
    ensures os.pending == old(os.pending[1..])
    ensures has <==> FirstOwned(old(os.pending[0]), pid).Some?
    ensures has ==> os.trace == old(os.trace) + WaitCalls(old(os.pending), pid) && WaitSees(old(os.pending), pid)
    ensures !has ==> os.trace + WaitCalls(os.pending, pid) == old(os.trace) + WaitCalls(old(os.pending), pid)
    ensures !has ==> WaitSees(os.pending, pid) == WaitSees(old(os.pending), pid)
  {
    has := HasWindow(os, pid);
    if !has {
      os.CallSleep(10);
    }
  }

  /** `while (!has_window(pid)) Sleep(10);`, over the polls the OS has left. */
  method WaitForWindow(os: Os, pid: uint32) returns (seen: bool)
    modifies os
    ensures seen == WaitSees(old(os.pending), pid)
    ensures os.trace == old(os.trace) + WaitCalls(old(os.pending), pid)
  {
    seen := false;
    while !seen && os.pending != []
      invariant seen ==> os.trace == old(os.trace) + WaitCalls(old(os.pending), pid) && WaitSees(old(os.pending), pid)
      invariant !seen ==> os.trace + WaitCalls(os.pending, pid) == old(os.trace) + WaitCalls(old(os.pending), pid)
      invariant !seen ==> WaitSees(os.pending, pid) == WaitSees(old(os.pending), pid)
      decreases |os.pending|, if seen then 0 else 1
    {
      ghost var trace := os.trace;
      ghost var pending := os.pending;
      seen := PollOnce(os, pid);
      if seen {
        assert os.trace == trace + WaitCalls(pending, pid);
      }
    }
  }

  /** launch_game. */
  method LaunchGame(os: Os, app: seq<uint8>, arg: seq<uint8>) returns (r: Option<int32>)
    modifies os
    ensures var spec := Launch(os.answers, old(os.pending), app, arg);
      r == spec.0 && os.trace == old(os.trace) + spec.1
  {
    ghost var t0 := os.trace;
    var appW := WideString(app);
    var argW := WideString(arg);
    var input := appW + [0x20] + argW;
    var e := PrepareSecurity(os);
    if e.Some? {
      return Some(ToInt32(e.value));
    }
    var c := os.CallCreateProcess(appW, input);
    if c.CreateFailed? {
      return Some(ToInt32(c.error));
    }
    r := AttachToGame(os, c.processId);
  }

  /** The end of launch_game: wait for a window of the game, then give it the launcher's ACL. */
  method AttachToGame(os: Os, pid: uint32) returns (r: Option<int32>)
    modifies os
    ensures r == Attach(old(os.pending), pid).0
    ensures os.trace == old(os.trace) + Attach(old(os.pending), pid).1
  {
    var seen := WaitForWindow(os, pid);
    if !seen {
      return None;
    }
    os.CallRebindAcl(pid);
    return Some(ToInt32(pid));
  }

  /** The checks pass: GetUserName, InitializeSecurityDescriptor and SetSecurityDescriptorDacl all succeed. */
  predicate ChecksPass(a: OsAnswers)
  {
    a.userName.None? && a.initDescriptor.None? && a.setDacl.None?
  }

  /** Some call of the trace is `CreateProcess`. */
  predicate Creates(calls: seq<Call>)
  {
    exists i :: 0 <= i < |calls| && calls[i].CreateProcess?
  }

  /** Some call of the trace is `c`. */
  predicate Makes(calls: seq<Call>, c: Call)
  {
    exists i :: 0 <= i < |calls| && calls[i] == c
  }

  /**
   * A failing check returns the error GetLastError reports and is the last call made; no
   * process is created unless every check passed; a failing CreateProcess also returns its
   * error with nothing after it.
   */
  lemma {:induction false} FailureStopsLaunch(a: OsAnswers, polls: seq<seq<Window>>, app: seq<uint8>, arg: seq<uint8>)
    ensures var (r, calls) := Launch(a, polls, app, arg);
      && (a.userName.Some? ==> r == Some(ToInt32(a.userName.value)) && calls == [GetUserName])
      && (a.userName.None? && a.initDescriptor.Some? ==>
            r == Some(ToInt32(a.initDescriptor.value)) && calls[|calls| - 1] == InitializeSecurityDescriptor)
      && (a.userName.None? && a.initDescriptor.None? && a.setDacl.Some? ==>
            r == Some(ToInt32(a.setDacl.value)) && calls[|calls| - 1].SetSecurityDescriptorDacl?)
      && (Creates(calls) <==> ChecksPass(a))
      && (ChecksPass(a) && a.creation.CreateFailed? ==>
            r == Some(ToInt32(a.creation.error)) && calls[|calls| - 1].CreateProcess?)
  {
    var calls := Launch(a, polls, app, arg).1;
    if ChecksPass(a) {
      assert calls[4].CreateProcess?;
    }
  }

  /** CreateProcess gets the widened application and, as its command line, the widened "app arg". */
  lemma {:induction false} CreateProcessGetsCommandLine(a: OsAnswers, polls: seq<seq<Window>>, app: seq<uint8>, arg: seq<uint8>)
    ensures var calls := Launch(a, polls, app, arg).1;
      forall i :: 0 <= i < |calls| && calls[i].CreateProcess? ==>
        calls[i] == CreateProcess(WideString(app), WideString(app + [0x20] + arg))
  {
    CommandLineIsWidened(app, arg);
    var calls := Launch(a, polls, app, arg).1;
    if ChecksPass(a) && a.creation.Created? {
      var w := WaitCalls(polls, a.creation.processId);
      WaitCallsKinds(polls, a.creation.processId);
      forall i | 5 <= i < |calls|
        ensures !calls[i].CreateProcess?
      {
        if i < 5 + |w| {
          assert calls[i] == w[i - 5];
        }
      }
    }
  }

  /** The wait makes enumerations and sleeps only. */
  lemma {:induction false} WaitCallsKinds(polls: seq<seq<Window>>, pid: uint32)
    ensures forall i :: 0 <= i < |WaitCalls(polls, pid)| ==> WaitCalls(polls, pid)[i] in {EnumWindows, Sleep(10)}
    decreases |polls|
  {
    if polls != [] && FirstOwned(polls[0], pid).None? {
      WaitCallsKinds(polls[1..], pid);
    }
  }

  /** The ACL is read exactly when the checks pass, the process is created and some poll finds a window of it. */
  lemma {:induction false} AclReadOnlyAfterWindow(a: OsAnswers, polls: seq<seq<Window>>, app: seq<uint8>, arg: seq<uint8>)
    ensures Makes(Launch(a, polls, app, arg).1, GetSecurityInfo) <==>
      ChecksPass(a) && a.creation.Created? && exists k :: 0 <= k < |polls| && FirstOwned(polls[k], a.creation.processId).Some?
  {
    var calls := Launch(a, polls, app, arg).1;
    if ChecksPass(a) && a.creation.Created? {
      var pid := a.creation.processId;
      WaitSeesSomePoll(polls, pid);
      var w := WaitCalls(polls, pid);
      if WaitSees(polls, pid) {
        assert calls[|calls| - 2] == GetSecurityInfo;
      } else {
        WaitCallsKinds(polls, pid);
        forall i | 5 <= i < |calls|
          ensures calls[i] != GetSecurityInfo
        {
          assert calls[i] == w[i - 5];
        }
      }
    }
  }

  /**
   * When the ACL is read, it is read and rebound at the very end, right after the enumeration of
   * the first poll that found a window of the game, and the result is the new process id.
   */
  lemma {:induction false} AclRebindEndsLaunch(a: OsAnswers, polls: seq<seq<Window>>, app: seq<uint8>, arg: seq<uint8>)
    requires ChecksPass(a) && a.creation.Created? && WaitSees(polls, a.creation.processId)
    ensures var (r, calls) := Launch(a, polls, app, arg);
      && |calls| >= 8
      && calls[|calls| - 2..] == [GetSecurityInfo, SetSecurityInfo(a.creation.processId)]
      && r == Some(ToInt32(a.creation.processId))
      && exists k: nat :: FirstSeenAt(polls, a.creation.processId, k) && calls[5..|calls| - 2] == Unseen(k) + [EnumWindows]
  {
    var calls := Launch(a, polls, app, arg).1;
    var pid := a.creation.processId;
    WaitStopsAtFirstWindow(polls, pid);
    var k: nat :| FirstSeenAt(polls, pid, k) && WaitCalls(polls, pid) == Unseen(k) + [EnumWindows];
    assert calls[5..|calls| - 2] == WaitCalls(polls, pid);
  }

  /** A launch whose checks pass, whose process is created and whose wait ends returns the new process id. */
  lemma {:induction false} SuccessReturnsPid(a: OsAnswers, polls: seq<seq<Window>>, app: seq<uint8>, arg: seq<uint8>)
    requires ChecksPass(a) && a.creation.Created?
    ensures var r := Launch(a, polls, app, arg).0;
      (r.None? <==> !WaitSees(polls, a.creation.processId))
      && (r.Some? ==> r.value == ToInt32(a.creation.processId))
      && (a.creation.processId <= 0x7FFF_FFFF && r.Some? ==> r.value == a.creation.processId)
  {
  }

  /** What main writes to standard output. */
  datatype Output = Usage | ProcessId(value: int32) | NoOutput

  /**
   * main: with fewer than two arguments after the program name, the usage text and -1; otherwise
   * the result of launching the game with the first two, written out and returned.
   */
  method LauncherMain(os: Os, argv: seq<seq<uint8>>) returns (exitCode: Option<int32>, output: Output)
    modifies os
    ensures |argv| < 3 ==> exitCode == Some(-1) && output == Usage && os.trace == old(os.trace)
    ensures |argv| >= 3 ==>
      var spec := Launch(os.answers, old(os.pending), argv[1], argv[2]);
      && exitCode == spec.0
      && os.trace == old(os.trace) + spec.1
      && output == if exitCode.Some? then ProcessId(exitCode.value) else NoOutput
  {
    if |argv| < 3 {
      return Some(-1), Usage;
    }
    exitCode := LaunchGame(os, argv[1], argv[2]);
    output := if exitCode.Some? then ProcessId(exitCode.value) else NoOutput;
  }
}
