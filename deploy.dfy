/**
 The customer loop of deploy_all.py: the two checks that abort the run, then
 one iteration per customer that selects the customer's `srcdata` folder,
 discovers the library's arguments, runs the library and records a status
 text. The library is opaque: what it does in one iteration is an input.
 */
module Deploy {
  import opened Options
  import opened Strings
  import opened Dicts
  import opened Discovery

  /** What `MigManPrecheckFiles` gave: a status per checked item, or an exception. */
  datatype Precheck =
    | Returned(items: map<string, string>)
    | Raised(error: string)  // the `NemoLibrary` constructor or the precheck raised

  /**
   One iteration's behaviour of the library: the precheck, and whether the
   seven operations that follow a clean precheck (delete projects, create
   templates, load data, create mapping, load mapping, apply mapping, export
   data) all return (None) or one of them raises (Some(error)).
   */
  datatype LibraryRun = LibraryRun(precheck: Precheck, operations: Option<string>)

  /**
   One construction of the library, or its attempted construction when the
   constructor raised: for whom, with what, and whether the operations were
   started.
   */
  datatype Call = Call(customer: string, args: LibraryArgs, operationsInvoked: bool)

  datatype Abort = BaseFolderMissing | NoSrcdataFolder

  /** How the script ends: stopped by `exit()` before any customer, or with its `status` dict. */
  datatype RunResult =
    | Aborted(reason: Abort)
    | Finished(status: Dict<string>, calls: seq<Call>)

  const OkText := "ok"
  const PrecheckFailedText := "precheck not successfull"

  /** `traceback.format_exc()` for an exception whose details are `detail`. */
  function TracebackText(detail: string): (t: string)
    ensures t != OkText && t != PrecheckFailedText
  {
    "Traceback (most recent call last):\n" + detail
  }

  /**
   `all([value == "ok" for key, value in precheckstatus.items()])`; true of an
   empty map. `CustomerStep` and `EmptyPrecheckRunsOperations` say what it decides.
   */
  predicate AllOk(items: map<string, string>)
  {
    forall k | k in items :: items[k] == OkText
  }

  /** The effect of one iteration: no status entry (the `continue`), or one entry and one library call. */
  datatype Step = Skipped | Recorded(text: string, call: Call)

  /** deploy_all.py lines 34-122 for one customer and one behaviour of the library. */
  function CustomerStep(fs: FileSystem, customer: string, run: LibraryRun): (s: Step)
    ensures s.Skipped? <==> SelectFolder(fs.srcdataFolders, customer).None?
    ensures s.Recorded? ==>
      s.call.customer == customer &&
      s.call.args == Discover(fs, SelectFolder(fs.srcdataFolders, customer).value)
    ensures s.Recorded? ==>
      (s.text == OkText <==> run.precheck.Returned? && AllOk(run.precheck.items) && run.operations.None?)
    ensures s.Recorded? ==>
      (s.text == PrecheckFailedText <==> run.precheck.Returned? && !AllOk(run.precheck.items))
    ensures s.Recorded? && run.precheck.Raised? ==> s.text == TracebackText(run.precheck.error)
    ensures s.Recorded? && run.precheck.Returned? && AllOk(run.precheck.items) && run.operations.Some? ==>
      s.text == TracebackText(run.operations.value)
    ensures s.Recorded? ==>
      (s.call.operationsInvoked <==> run.precheck.Returned? && AllOk(run.precheck.items))
  {
    match SelectFolder(fs.srcdataFolders, customer)
    case None => Skipped
    case Some(srcdata) =>
      var args := Discover(fs, srcdata);
      match run.precheck
      case Raised(e) => Recorded(TracebackText(e), Call(customer, args, false))
      case Returned(items) =>
        if AllOk(items) then
          var text := if run.operations.None? then OkText else TracebackText(run.operations.value);
          Recorded(text, Call(customer, args, true))
        else
          Recorded(PrecheckFailedText, Call(customer, args, false))
  }

  /**
   Python's `all([])` is true: a precheck that reports on no item lets the
   operations run, and the customer is "ok" unless one of them raises.
   */
  lemma EmptyPrecheckRunsOperations(fs: FileSystem, customer: string, operations: Option<string>)
    requires SelectFolder(fs.srcdataFolders, customer).Some?
    ensures var s := CustomerStep(fs, customer, LibraryRun(Returned(map[]), operations));
      s.Recorded? && s.call.operationsInvoked && (s.text == OkText <==> operations.None?)
  {
  }

  /** The `status` dict and the library calls after the iterations for `customers`. */
  datatype Progress = Progress(status: Dict<string>, calls: seq<Call>)

  /**
   The loop over `customers`, `runs[i]` being the library's behaviour in
   iteration `i`. What it builds is stated by `LoopValid`, `LoopStatusKeys`,
   `LoopCalls` and `LoopLastWrite`.
   */
  function Loop(fs: FileSystem, customers: seq<string>, runs: seq<LibraryRun>): (p: Progress)
    requires |runs| == |customers|
  {
    if customers == [] then Progress(Empty(), [])
    else
      var n := |customers| - 1;
      var p := Loop(fs, customers[..n], runs[..n]);
      match CustomerStep(fs, customers[n], runs[n])
      case Skipped => p
      case Recorded(text, call) => Progress(p.status.Put(customers[n], text), p.calls + [call])
  }

  /** The whole script: the abort checks of deploy_all.py lines 17-23, then the loop. */
  function Deployment(fs: FileSystem, customers: seq<string>, runs: seq<LibraryRun>): (r: RunResult)
    requires |runs| == |customers|
    ensures r.Aborted? <==> !fs.baseExists || fs.srcdataFolders == []
    ensures r.Aborted? ==> r.reason == if fs.baseExists then NoSrcdataFolder else BaseFolderMissing
  {
    if !fs.baseExists then Aborted(BaseFolderMissing)
    else if fs.srcdataFolders == [] then Aborted(NoSrcdataFolder)
    else
      var p := Loop(fs, customers, runs);
      Finished(p.status, p.calls)
  }

  /** The body of the `try` at deploy_all.py lines 34-122, for one customer. */
  method DeployCustomer(fs: FileSystem, customer: string, run: LibraryRun) returns (step: Step)
    ensures step == CustomerStep(fs, customer, run)
  {
    var srcdata := SelectFolder(fs.srcdataFolders, customer);
    if srcdata.None? {
      return Skipped;
    }
    var projects := NormalizedStems(CsvStems(fs, srcdata.value));
    var multiProjects := CollectMultiProjects(projects);
    projects := ProjectNames(projects);
    // `if not mappingfolder` cannot fire: a `Path` is always truthy, and a
    // missing folder simply globs to no mapping files.
    var mappingFolder := MappingsFolder(srcdata.value);
    var mappings := MappingFields(CsvStems(fs, mappingFolder));
    var args := LibraryArgs(projects, multiProjects, mappings, Parent(srcdata.value));
    match run.precheck {
      case Raised(e) =>
        step := Recorded(TracebackText(e), Call(customer, args, false));
      case Returned(items) =>
        if AllOk(items) {
          match run.operations {
            case None => step := Recorded(OkText, Call(customer, args, true));
            case Some(e) => step := Recorded(TracebackText(e), Call(customer, args, true));
          }
        } else {
          step := Recorded(PrecheckFailedText, Call(customer, args, false));
        }
    }
  }

  /** The script itself: the abort checks, then the loop that fills `status`. */
  method DeployAll(fs: FileSystem, customers: seq<string>, runs: seq<LibraryRun>) returns (r: RunResult)
    requires |runs| == |customers|
    ensures r == Deployment(fs, customers, runs)
  {
    if !fs.baseExists {
      return Aborted(BaseFolderMissing);
    }
    if fs.srcdataFolders == [] {
      return Aborted(NoSrcdataFolder);
    }
    var status: Dict<string> := Empty();
    var calls: seq<Call> := [];
    for i := 0 to |customers|
      invariant status == Loop(fs, customers[..i], runs[..i]).status
      invariant calls == Loop(fs, customers[..i], runs[..i]).calls
    {
      assert customers[..i + 1][..i] == customers[..i];
      assert runs[..i + 1][..i] == runs[..i];
      LoopUnfold(fs, customers[..i + 1], runs[..i + 1]);
      LoopUnfoldCalls(fs, customers[..i + 1], runs[..i + 1]);
      var step := DeployCustomer(fs, customers[i], runs[i]);
      match step {
        case Skipped =>
        case Recorded(text, call) =>
          status := status.Put(customers[i], text);
          calls := calls + [call];
      }
    }
    assert customers[..|customers|] == customers && runs[..|runs|] == runs;
    return Finished(status, calls);
  }

  // ---------------------------------------------------------------------------
  // What the loop records

  /** The customers that have a `srcdata` folder of their own, in list order. */
  function Matched(fs: FileSystem, customers: seq<string>): (m: seq<string>)
    ensures forall c :: c in m <==> c in customers && SelectFolder(fs.srcdataFolders, c).Some?
    ensures |m| <= |customers|
  {
    if customers == [] then []
    else
      var n := |customers| - 1;
      var c := customers[n];
      assert forall x :: x in customers <==> x in customers[..n] || x == c;
      Matched(fs, customers[..n]) + if SelectFolder(fs.srcdataFolders, c).Some? then [c] else []
  }

  /** One unfolding of `Loop` for `status`: the last iteration either skips or assigns its customer's entry. */
  lemma LoopUnfold(fs: FileSystem, customers: seq<string>, runs: seq<LibraryRun>)
    requires |runs| == |customers| && customers != []
    ensures var n := |customers| - 1;
      var pre, step := Loop(fs, customers[..n], runs[..n]), CustomerStep(fs, customers[n], runs[n]);
      Loop(fs, customers, runs).status ==
        if step.Skipped? then pre.status else pre.status.Put(customers[n], step.text)
  {
  }

  /** One unfolding of `Loop` for the calls: the last iteration either skips or adds its call. */
  lemma LoopUnfoldCalls(fs: FileSystem, customers: seq<string>, runs: seq<LibraryRun>)
    requires |runs| == |customers| && customers != []
    ensures var n := |customers| - 1;
      var pre, step := Loop(fs, customers[..n], runs[..n]), CustomerStep(fs, customers[n], runs[n]);
      Loop(fs, customers, runs).calls == if step.Skipped? then pre.calls else pre.calls + [step.call]
  {
  }

  /** A call is made for a customer that has a folder, with the arguments discovered in it. */
  ghost predicate CallFits(fs: FileSystem, call: Call)
  {
    SelectFolder(fs.srcdataFolders, call.customer).Some? &&
    call.args == Discover(fs, SelectFolder(fs.srcdataFolders, call.customer).value)
  }

  /** Every `status` dict the loop builds is well formed. */
  lemma {:induction false} LoopValid(fs: FileSystem, customers: seq<string>, runs: seq<LibraryRun>)
    requires |runs| == |customers|
    ensures Loop(fs, customers, runs).status.Valid()
  {
    if customers != [] {
      var n := |customers| - 1;
      LoopValid(fs, customers[..n], runs[..n]);
    }
  }

  /**
   The keys of `status` are the customers that have a folder, in the order
   of their first appearance in the list.
   */
  lemma {:induction false} LoopStatusKeys(fs: FileSystem, customers: seq<string>, runs: seq<LibraryRun>)
    requires |runs| == |customers|
    ensures Loop(fs, customers, runs).status.keys == Dedup(Matched(fs, customers))
  {
    if customers != [] {
      var n := |customers| - 1;
      LoopUnfold(fs, customers, runs);
      LoopStatusKeys(fs, customers[..n], runs[..n]);
      LoopValid(fs, customers[..n], runs[..n]);
      var m := Matched(fs, customers[..n]);
      var c := customers[n];
      var step := CustomerStep(fs, c, runs[n]);
      if step.Recorded? {
        assert Matched(fs, customers) == m + [c];
        assert (m + [c])[..|m|] == m;
      } else {
        assert Matched(fs, customers) == m;
      }
    }
  }

  /**
   The library is constructed, or its construction attempted, once per
   customer that has a folder, in list order, with that customer's
   discovered arguments.
   */
  lemma {:induction false} LoopCalls(fs: FileSystem, customers: seq<string>, runs: seq<LibraryRun>)
    requires |runs| == |customers|
    ensures var calls, m := Loop(fs, customers, runs).calls, Matched(fs, customers);
      |calls| == |m| &&
      (forall k :: 0 <= k < |calls| ==> calls[k].customer == m[k]) &&
      (forall call :: call in calls ==> CallFits(fs, call))
  {
    if customers != [] {
      var n := |customers| - 1;
      var pre := Loop(fs, customers[..n], runs[..n]).calls;
      var step := CustomerStep(fs, customers[n], runs[n]);
      LoopUnfoldCalls(fs, customers, runs);
      MatchedUnfold(fs, customers);
      LoopCalls(fs, customers[..n], runs[..n]);
      if step.Recorded? {
        assert CallFits(fs, step.call);
        CustomersAppend(pre, Matched(fs, customers[..n]), step.call, customers[n]);
        FitsAppend(fs, pre, step.call);
      }
    }
  }

  /** One unfolding of `Matched`. */
  lemma MatchedUnfold(fs: FileSystem, customers: seq<string>)
    requires customers != []
    ensures var n := |customers| - 1;
      Matched(fs, customers) ==
        Matched(fs, customers[..n]) + if SelectFolder(fs.srcdataFolders, customers[n]).Some? then [customers[n]] else []
  {
  }

  /** Appending a fitting call to fitting calls gives fitting calls. */
  lemma FitsAppend(fs: FileSystem, calls: seq<Call>, call: Call)
    requires (forall x :: x in calls ==> CallFits(fs, x)) && CallFits(fs, call)
    ensures forall x :: x in calls + [call] ==> CallFits(fs, x)
  {
  }

  /** Appending a call for `c` to calls that follow `m` gives calls that follow `m + [c]`. */
  lemma CustomersAppend(calls: seq<Call>, m: seq<string>, call: Call, c: string)
    requires |calls| == |m| && forall k :: 0 <= k < |calls| ==> calls[k].customer == m[k]
    requires call.customer == c
    ensures forall k :: 0 <= k < |calls| + 1 ==> (calls + [call])[k].customer == (m + [c])[k]
  {
    forall k | 0 <= k < |calls| + 1 ensures (calls + [call])[k].customer == (m + [c])[k] {
      if k < |calls| {
        assert (calls + [call])[k] == calls[k] && (m + [c])[k] == m[k];
      }
    }
  }

  /** `i` is the last iteration for its customer. */
  ghost predicate LastVisit(customers: seq<string>, i: int)
  {
    0 <= i < |customers| && forall j :: i < j < |customers| ==> customers[j] != customers[i]
  }

  /**
   A customer's entry after one more iteration: the entry of a customer the
   iteration is not for is kept, and a recorded step writes its text for its
   customer.
   */
  lemma LoopFrame(fs: FileSystem, customers: seq<string>, runs: seq<LibraryRun>, c: string)
    requires |runs| == |customers| && customers != []
    ensures var n := |customers| - 1;
      var status, pre := Loop(fs, customers, runs).status, Loop(fs, customers[..n], runs[..n]).status;
      var step := CustomerStep(fs, customers[n], runs[n]);
      (c != customers[n] && c in pre.values ==> c in status.values && status.values[c] == pre.values[c]) &&
      (c == customers[n] && step.Recorded? ==> c in status.values && status.values[c] == step.text)
  {
    LoopUnfold(fs, customers, runs);
  }

  /** A customer's entry is the one its last iteration wrote. */
  lemma {:induction false} LoopLastWrite(fs: FileSystem, customers: seq<string>, runs: seq<LibraryRun>, i: int)
    requires |runs| == |customers| && LastVisit(customers, i)
    requires SelectFolder(fs.srcdataFolders, customers[i]).Some?
    ensures customers[i] in Loop(fs, customers, runs).status.values
    ensures Loop(fs, customers, runs).status.values[customers[i]] ==
      CustomerStep(fs, customers[i], runs[i]).text
    decreases |customers|, 1
  {
    var n := |customers| - 1;
    if i < n {
      assert LastVisit(customers[..n], i);
      assert customers[n] != customers[i];
      LoopLastWriteEarlier(fs, customers, runs, i);
    } else {
      assert i == n;
      LoopFrame(fs, customers, runs, customers[n]);
    }
  }

  /** The inductive step of `LoopLastWrite`: a later iteration for another customer keeps the entry. */
  lemma {:induction false} LoopLastWriteEarlier(fs: FileSystem, customers: seq<string>, runs: seq<LibraryRun>, i: int)
    requires |runs| == |customers| && 0 <= i < |customers| - 1
    requires LastVisit(customers[..|customers| - 1], i) && customers[|customers| - 1] != customers[i]
    requires SelectFolder(fs.srcdataFolders, customers[i]).Some?
    ensures customers[i] in Loop(fs, customers, runs).status.values
    ensures Loop(fs, customers, runs).status.values[customers[i]] ==
      CustomerStep(fs, customers[i], runs[i]).text
    decreases |customers|, 0
  {
    var n := |customers| - 1;
    var prefix, prefixRuns := customers[..n], runs[..n];
    assert prefix[i] == customers[i] && prefixRuns[i] == runs[i];
    LoopLastWrite(fs, prefix, prefixRuns, i);
    LoopFrame(fs, customers, runs, customers[i]);
  }

  /**
   What a customer's status says, once the run gets past the abort checks:
   no entry exactly when no `srcdata` folder has the customer as a
   component; otherwise "ok" exactly when the precheck returned only "ok"
   values and no operation raised, "precheck not successfull" exactly when
   some precheck value is not "ok", and a traceback text otherwise.
   */
  lemma StatusMeaning(fs: FileSystem, customers: seq<string>, runs: seq<LibraryRun>, i: int)
    requires |runs| == |customers| && LastVisit(customers, i)
    requires fs.baseExists && fs.srcdataFolders != []
    ensures var status, c, run := Deployment(fs, customers, runs).status, customers[i], runs[i];
      (c in status.values <==> exists f :: f in fs.srcdataFolders && c in f.parts) &&
      (c in status.values ==>
        (status.values[c] == OkText <==>
          run.precheck.Returned? && AllOk(run.precheck.items) && run.operations.None?) &&
        (status.values[c] == PrecheckFailedText <==>
          run.precheck.Returned? && !AllOk(run.precheck.items)) &&
        (run.precheck.Raised? ==> status.values[c] == TracebackText(run.precheck.error)) &&
        (run.precheck.Returned? && AllOk(run.precheck.items) && run.operations.Some? ==>
          status.values[c] == TracebackText(run.operations.value)))
  {
    LoopStatusKeys(fs, customers, runs);
    LoopValid(fs, customers, runs);
    var c := customers[i];
    if SelectFolder(fs.srcdataFolders, c).Some? {
      LoopLastWrite(fs, customers, runs, i);
    } else {
      assert forall f :: f in fs.srcdataFolders ==> c !in f.parts;
    }
  }

  /** The customer list of the script. */
  const ScriptCustomers := ["siba", "ledlenser", "wepuko"]

  /**
   With the script's own customer list, whose names are distinct, the keys
   of `status` are the customers that have a folder, in list order, each
   once; at most three entries.
   */
  lemma ScriptStatusOrder(fs: FileSystem, runs: seq<LibraryRun>)
    requires |runs| == |ScriptCustomers|
    requires fs.baseExists && fs.srcdataFolders != []
    ensures Deployment(fs, ScriptCustomers, runs).status.keys == Matched(fs, ScriptCustomers)
    ensures |Deployment(fs, ScriptCustomers, runs).status.keys| <= 3
  {
    LoopStatusKeys(fs, ScriptCustomers, runs);
    ScriptCustomersDistinct();
    MatchedDistinct(fs, ScriptCustomers);
    DedupOfDistinct(Matched(fs, ScriptCustomers));
  }

  /** The script's customer names are pairwise different. */
  lemma ScriptCustomersDistinct()
    ensures forall i, j :: 0 <= i < j < |ScriptCustomers| ==> ScriptCustomers[i] != ScriptCustomers[j]
  {
    var cs := ScriptCustomers;
    assert cs[0][0] == 's' && cs[1][0] == 'l' && cs[2][0] == 'w';
  }

  /** Distinct customers stay distinct after dropping those without a folder. */
  lemma {:induction false} MatchedDistinct(fs: FileSystem, customers: seq<string>)
    requires forall i, j :: 0 <= i < j < |customers| ==> customers[i] != customers[j]
    ensures var m := Matched(fs, customers); forall i, j :: 0 <= i < j < |m| ==> m[i] != m[j]
  {
    if customers != [] {
      var n := |customers| - 1;
      var c, prefix := customers[n], customers[..n];
      forall i, j | 0 <= i < j < |prefix| ensures prefix[i] != prefix[j] {
        assert prefix[i] == customers[i] && prefix[j] == customers[j];
      }
      MatchedDistinct(fs, prefix);
      forall k | 0 <= k < |prefix| ensures prefix[k] != c {
        assert prefix[k] == customers[k];
      }
      MatchedUnfold(fs, customers);
      if SelectFolder(fs.srcdataFolders, c).Some? {
        DistinctAppend(Matched(fs, prefix), c);
      }
    }
  }

  /** Appending an element that is not there keeps a sequence free of repetitions. */
  lemma DistinctAppend(s: seq<string>, x: string)
    requires (forall i, j :: 0 <= i < j < |s| ==> s[i] != s[j]) && x !in s
    ensures forall i, j :: 0 <= i < j < |s + [x]| ==> (s + [x])[i] != (s + [x])[j]
  {
    forall i, j | 0 <= i < j < |s + [x]| ensures (s + [x])[i] != (s + [x])[j] {
      assert (s + [x])[i] == s[i];
      if j < |s| {
        assert (s + [x])[j] == s[j];
      }
    }
  }
}
