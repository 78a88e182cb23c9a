/** `ProgressBarManager` and `ProgressBar`: the manager turns each call into
    one `ProgressCommand` for its worker, a bar forwards every call with its
    own id, and dropping a bar sends `RemoveProgress` for that id. The worker
    thread and its channel are modelled by the ordered list of commands sent
    (the channel delivers them in order). */
module ProgressBars {
  import opened Bytes
  import opened Results
  import opened ProgressFrames

  /** The commands sent so far, oldest first. */
  datatype Manager = Manager(sent: seq<ProgressCommand>)

  datatype ProgressBar = ProgressBar(id: u64)

  /** `ProgressBarManager::set_progress`: an absent flag becomes `false`
      and an absent maximum `0.0`. */
  function ManagerSetProgress(m: Manager, id: u64, isIndeterminate: Option<bool>, max: Option<F64Bits>,
                              name: Option<bytes>): (r: Manager)
    ensures |r.sent| == |m.sent| + 1 && r.sent[..|m.sent|] == m.sent
    ensures var c := r.sent[|m.sent|];
      && c.SetProgress? && c.id == id && c.name == name
      && (c.isIndeterminate <==> isIndeterminate == Some(true))
      && c.max == (if max.Some? then max.value else ZERO_F64)
  {
    var ind := match isIndeterminate case Some(b) => b case None => false;
    var mx := match max case Some(v) => v case None => ZERO_F64;
    Manager(m.sent + [SetProgress(id, ind, mx, name)])
  }

  function ManagerRemoveProgress(m: Manager, id: u64): (r: Manager)
    ensures |r.sent| == |m.sent| + 1 && r.sent[..|m.sent|] == m.sent
    ensures r.sent[|m.sent|] == RemoveProgress(id)
  {
    Manager(m.sent + [RemoveProgress(id)])
  }

  function ManagerSetLeftText(m: Manager, id: u64, text: Option<bytes>): (r: Manager)
    ensures |r.sent| == |m.sent| + 1 && r.sent[..|m.sent|] == m.sent
    ensures r.sent[|m.sent|] == SetLeftText(id, text)
  {
    Manager(m.sent + [SetLeftText(id, text)])
  }

  function ManagerSetRightText(m: Manager, id: u64, text: Option<bytes>): (r: Manager)
    ensures |r.sent| == |m.sent| + 1 && r.sent[..|m.sent|] == m.sent
    ensures r.sent[|m.sent|] == SetRightText(id, text)
  {
    Manager(m.sent + [SetRightText(id, text)])
  }

  function ManagerSetProgressValue(m: Manager, id: u64, value: F64Bits): (r: Manager)
    ensures |r.sent| == |m.sent| + 1 && r.sent[..|m.sent|] == m.sent
    ensures r.sent[|m.sent|] == SetProgressValue(id, value)
  {
    Manager(m.sent + [SetProgressValue(id, value)])
  }

  /** A call a program makes on a bar. */
  datatype BarCall =
    | SetProgressCall(isIndeterminate: Option<bool>, max: Option<F64Bits>, name: Option<bytes>)
    | RemoveCall
    | SetLeftTextCall(text: Option<bytes>)
    | SetRightTextCall(text: Option<bytes>)
    | SetProgressValueCall(value: F64Bits)

  /** The `ProgressBar` methods: each forwards to the manager with the bar's
      id. */
  function Call(bar: ProgressBar, m: Manager, call: BarCall): (r: Manager)
    ensures |r.sent| == |m.sent| + 1 && r.sent[..|m.sent|] == m.sent
    ensures r.sent[|m.sent|].id == bar.id
  {
    match call
    case SetProgressCall(ind, max, name) => ManagerSetProgress(m, bar.id, ind, max, name)
    case RemoveCall => ManagerRemoveProgress(m, bar.id)
    case SetLeftTextCall(text) => ManagerSetLeftText(m, bar.id, text)
    case SetRightTextCall(text) => ManagerSetRightText(m, bar.id, text)
    case SetProgressValueCall(value) => ManagerSetProgressValue(m, bar.id, value)
  }

  /** A series of calls on one bar, in order. */
  function CallAll(bar: ProgressBar, m: Manager, calls: seq<BarCall>): (r: Manager)
    ensures |r.sent| == |m.sent| + |calls| && r.sent[..|m.sent|] == m.sent
    ensures forall i :: |m.sent| <= i < |r.sent| ==> r.sent[i].id == bar.id
    decreases |calls|
  {
    if |calls| == 0 then m
    else
      var next := Call(bar, m, calls[0]);
      var r := CallAll(bar, next, calls[1..]);
      assert r.sent[..|m.sent|] == r.sent[..|next.sent|][..|m.sent|];
      r
  }

  /** `Drop for ProgressBar`: removal of the bar's id. */
  function Drop(bar: ProgressBar, m: Manager): (r: Manager)
    ensures |r.sent| == |m.sent| + 1 && r.sent[..|m.sent|] == m.sent
    ensures r.sent[|m.sent|] == RemoveProgress(bar.id)
  {
    Call(bar, m, RemoveCall)
  }

  datatype Created = Created(bar: ProgressBar, manager: Manager)

  /** `create_progress`: the requested id, or `random` (the value
      `rand::random` would produce) when none is given; the new bar's first
      command is its SetProgress. */
  function CreateProgress(m: Manager, id: Option<u64>, random: u64, isIndeterminate: Option<bool>,
                          max: Option<F64Bits>, name: Option<bytes>): (r: Created)
    ensures id.Some? ==> r.bar.id == id.value
    ensures id.None? ==> r.bar.id == random
    ensures |r.manager.sent| == |m.sent| + 1 && r.manager.sent[..|m.sent|] == m.sent
    ensures r.manager.sent[|m.sent|].SetProgress? && r.manager.sent[|m.sent|].id == r.bar.id
  {
    var bar := ProgressBar(match id case Some(v) => v case None => random);
    Created(bar, Call(bar, m, SetProgressCall(isIndeterminate, max, name)))
  }

  /** A bar's whole life: created, used by `calls`, then dropped. */
  function Lifetime(m: Manager, id: Option<u64>, random: u64, isIndeterminate: Option<bool>,
                    max: Option<F64Bits>, name: Option<bytes>, calls: seq<BarCall>): (r: Manager)
  {
    var created := CreateProgress(m, id, random, isIndeterminate, max, name);
    Drop(created.bar, CallAll(created.bar, created.manager, calls))
  }

  /** Everything a bar's life sends carries the bar's id; it opens with
      SetProgress, closes with RemoveProgress, and earlier commands are kept. */
  lemma LifetimeCommands(m: Manager, id: Option<u64>, random: u64, isIndeterminate: Option<bool>,
                         max: Option<F64Bits>, name: Option<bytes>, calls: seq<BarCall>)
    ensures var r := Lifetime(m, id, random, isIndeterminate, max, name, calls);
      var barId := if id.Some? then id.value else random;
      && |r.sent| == |m.sent| + |calls| + 2
      && r.sent[..|m.sent|] == m.sent
      && r.sent[|m.sent|].SetProgress?
      && r.sent[|r.sent| - 1] == RemoveProgress(barId)
      && forall i :: |m.sent| <= i < |r.sent| ==> r.sent[i].id == barId
  {
    var created := CreateProgress(m, id, random, isIndeterminate, max, name);
    var used := CallAll(created.bar, created.manager, calls);
    var r := Drop(created.bar, used);
    assert r.sent[..|m.sent|] == used.sent[..|created.manager.sent|][..|m.sent|];
    assert r.sent[|m.sent|] == used.sent[|m.sent|] == created.manager.sent[|m.sent|];
  }

  /** What reaches the pipe for a bar's life decodes, frame by frame, to
      commands that all carry the bar's id, the last one its removal. */
  lemma LifetimeOnTheWire(id: Option<u64>, random: u64, isIndeterminate: Option<bool>,
                          max: Option<F64Bits>, name: Option<bytes>, calls: seq<BarCall>)
    requires forall i :: 0 <= i < |Lifetime(Manager([]), id, random, isIndeterminate, max, name, calls).sent| ==>
               TextsFit(Lifetime(Manager([]), id, random, isIndeterminate, max, name, calls).sent[i])
    ensures var sent := Lifetime(Manager([]), id, random, isIndeterminate, max, name, calls).sent;
      var barId := if id.Some? then id.value else random;
      && DecodeStream(EncodeStream(sent)).Some?
      && var decoded := DecodeStream(EncodeStream(sent)).value;
      && |decoded| == |calls| + 2
      && (forall i :: 0 <= i < |decoded| ==> decoded[i].id == barId)
      && decoded[|decoded| - 1] == RemoveProgress(barId)
  {
    var sent := Lifetime(Manager([]), id, random, isIndeterminate, max, name, calls).sent;
    LifetimeCommands(Manager([]), id, random, isIndeterminate, max, name, calls);
    DecodeEncodedStream(sent);
  }
}
