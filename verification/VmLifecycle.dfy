/** The life of one virtual machine in the portal: model methods and queue workers, each one atomic step, against
    whatever the cloud answers.
 */
module VmLifecycle {
  datatype Option<T> = None | Some(value: T)

  // ---------------------------------------------------------------- strings

  function LowerChar(c: char): char {
    if 'A' <= c <= 'Z' then c - 'A' + 'a' else c
  }

  function Lower(s: string): (r: string)
    ensures |r| == |s|
  {
    seq(|s|, i requires 0 <= i < |s| => LowerChar(s[i]))
  }

  /** In Ruby ^ and $ match at every line, so one matching line is enough. */
  function SplitLines(s: string): (r: seq<string>)
    ensures r != []
  {
    if s == "" then [""]
    else
      var rest := SplitLines(s[1..]);
      if s[0] == '\n' then [""] + rest else [[s[0]] + rest[0]] + rest[1..]
  }

  const TRUE_WORDS := {"true", "t", "yes", "y", "1"}

  /** String#to_bool: every string that is not one of the true words is false. */
  predicate ToBool(s: string) {
    exists k :: 0 <= k < |SplitLines(s)| && Lower(SplitLines(s)[k]) in TRUE_WORDS
  }

  lemma {:induction false} SingleLine(s: string)
    requires '\n' !in s
    ensures SplitLines(s) == [s]
  {
    if s != "" {
      SingleLine(s[1..]);
      assert s == [s[0]] + s[1..];
    }
  }

  /** A string of one line is true exactly when it is one of the words, in any case. */
  lemma ToBoolOfLine(s: string)
    requires '\n' !in s
    ensures ToBool(s) <==> Lower(s) in {"true", "t", "yes", "y", "1"}
  {
    SingleLine(s);
    assert SplitLines(s)[0] == s;
  }

  /** Job ids of five characters or more, such as UUIDs, are never taken for "done". */
  lemma LongIdsAreFalse(id: string)
    requires '\n' !in id && |id| >= 5
    ensures !ToBool(id)
  {
    ToBoolOfLine(id);
  }

  lemma OneIsTrue()
    ensures ToBool("1")
  {
    ToBoolOfLine("1");
    assert Lower("1") == "1";
  }

  // ---------------------------------------------------------------- the cloud

  datatype Request =
    | DeployVm
    | ListVms(id: Option<string>)
    | StartVm(id: Option<string>)
    | StopVm(id: Option<string>, forced: bool)
    | DestroyVm(id: Option<string>)
    | QueryJob(jobid: Option<string>)

  /** A job's status as text, as XML gives it, or as a number. */
  datatype Status = Text(text: string) | Number(number: int)

  /** What postRequest returns: nil, or a hash; Unusable is one in which an entry is missing that the caller reads. */
  datatype Reply =
    | NoReply
    | Unusable
    | Job(jobid: Option<string>)
    | Vm(state: string)
    | JobResult(status: Status, vm: Option<(string, string)>)

  /** The cloud never reports a machine as pending, and job ids are not taken for true. */
  predicate Sane(r: Reply) {
    match r
    case Vm(state) => Lower(state) != "pending"
    case JobResult(_, Some(vm)) => Lower(vm.1) != "pending"
    case Job(Some(id)) => !ToBool(id)
    case _ => true
  }

  /** The answers to the requests, in the order in which they will be made. */
  ghost predicate SaneCloud(reply: nat -> Reply) {
    forall n :: Sane(reply(n))
  }

  /** A request, and whether the machine was known to exist when it was sent. */
  datatype Sent = Sent(request: Request, created: bool)

  datatype Job = VMDeploy | VMStart | VMStop | VMDestroy(jobId: Option<string>)

  /** Results of the methods; Raised stands for any exception. */
  datatype Answer = Yes | No | Raised

  /** How a worker ends: done, put back into the queue by itself, or with an exception. */
  datatype Outcome = Finished | Again | Broken

  datatype StateAnswer = State(state: string) | NoState | StateRaised

  // ---------------------------------------------------------------- what the replies decide

  predicate Gone(state: string) {
    Lower(state) == "destroying" || Lower(state) == "destroyed"
  }

  /** The answer about a creation job that is done and gives a machine. */
  predicate Completes(r: Reply) {
    r.JobResult? && r.status.Text? && ToBool(r.status.text) && r.vm.Some?
  }

  /** The answer about a job that is not done, or no answer. */
  predicate Unfinished(r: Reply) {
    r.NoReply? || (r.JobResult? && r.status.Text? && !ToBool(r.status.text))
  }

  /** A listing that raises no exception, and the state that it leaves. */
  predicate Lists(r: Reply) {
    r.NoReply? || r.Vm?
  }

  function Listed(r: Reply, state: string): string {
    if r.Vm? then r.state else state
  }

  predicate JobDone(job: Option<string>) {
    job.Some? && ToBool(job.value)
  }

  /** With n replies used so far: the index of the listing that isCreated asks for, the state it starts from, and the
      state it ends with. */
  function Listing(job: Option<string>, n: nat): nat {
    if JobDone(job) then n else n + 1
  }

  function KnownState(job: Option<string>, state: string, reply: nat -> Reply, n: nat): string {
    if !JobDone(job) && Completes(reply(n)) then reply(n).vm.value.1 else state
  }

  function StateThen(job: Option<string>, state: string, reply: nat -> Reply, n: nat): string {
    Listed(reply(Listing(job, n)), KnownState(job, state, reply, n))
  }

  /** When isCreated says yes: the creation job is done, by now at the latest, the machine was not being destroyed and
      is not reported to be, and the listing raises nothing. */
  predicate Exists(job: Option<string>, state: string, reply: nat -> Reply, n: nat) {
    && job.Some? && (ToBool(job.value) || Completes(reply(n)))
    && !Gone(KnownState(job, state, reply, n)) && !Gone(StateThen(job, state, reply, n))
    && Lists(reply(Listing(job, n)))
  }

  /** When it raises an exception: the answer about the job lacks what is read from it, or the listing does. */
  predicate Breaks(job: Option<string>, state: string, reply: nat -> Reply, n: nat) {
    && job.Some?
    && if ToBool(job.value) || Completes(reply(n)) then
         !Gone(KnownState(job, state, reply, n)) && !Lists(reply(Listing(job, n)))
       else !Unfinished(reply(n))
  }

  /** When start succeeds: its own listing raises nothing, the machine exists and is reported stopped, and the cloud
      takes the request.  A machine known to be destroyed is not listed first. */
  predicate Startable(job: Option<string>, state: string, reply: nat -> Reply, n: nat) {
    var gone := Lower(state) == "destroyed";
    var first, m := if gone then state else Listed(reply(n), state), if gone then n else n + 1;
    && (gone || Lists(reply(n)))
    && Exists(job, first, reply, m) && Lower(StateThen(job, first, reply, m)) == "stopped"
    && reply(Listing(job, m) + 1).Job?
  }

  /** When stop succeeds: the first listing reports a state; then a forced request only needs the cloud to take it, and
      another one also a machine that exists and is reported running. */
  predicate Stoppable(forced: bool, job: Option<string>, state: string, reply: nat -> Reply, n: nat) {
    && Lower(state) != "destroyed" && reply(n).Vm?
    && if forced then reply(n + 1).Job?
       else
         && Exists(job, reply(n).state, reply, n + 1)
         && Lower(StateThen(job, reply(n).state, reply, n + 1)) == "running"
         && reply(Listing(job, n + 1) + 1).Job?
  }

  /** When destroy_vm succeeds: the machine exists, no state reported says that it is being destroyed, and the cloud
      takes the request. */
  predicate Destroyable(job: Option<string>, state: string, reply: nat -> Reply, n: nat) {
    && Lower(state) != "destroyed" && reply(n).Vm? && !Gone(reply(n).state)
    && Exists(job, reply(n).state, reply, n + 1)
    && reply(Listing(job, n + 1) + 1).Job?
  }

  /** Requests that may only be made for a machine that exists. */
  predicate NeedsMachine(r: Request) {
    r.StartVm? || r.DestroyVm? || (r.StopVm? && !r.forced)
  }

  // ---------------------------------------------------------------- the instance

  class Instance {
    const reply: nat -> Reply
    /** Requests made so far. */
    var requests: nat
    var state: string
    var jobId: Option<string>
    var jobCreatedId: Option<string>
    var instanceId: Option<string>
    var spice: Option<(string, string)>
    var queue: multiset<Job>
    ghost var sent: seq<Sent>
    /** Successful calls of deploy, and writes of instance_id. */
    ghost var deploys: nat
    ghost var idWrites: nat

    /** A new record. */
    constructor (reply: nat -> Reply)
      requires SaneCloud(reply)
      ensures Valid() && deploys == 0 && sent == [] && queue == multiset{} && jobCreatedId == None
    {
      this.reply, requests, state := reply, 0, "pending";
      jobId, jobCreatedId, instanceId, spice, queue := None, None, None, None, multiset{};
      sent, deploys, idWrites := [], 0, 0;
    }

    predicate Is(word: string)
      reads this
    {
      Lower(state) == word
    }

    /** The machine exists. */
    predicate Created()
      reads this
    {
      jobCreatedId == Some("1")
    }

    ghost predicate Valid()
      reads this
    {
      && SaneCloud(reply)
      && (instanceId.Some? <==> Created())
      && (jobCreatedId.Some? && !Created() ==> !ToBool(jobCreatedId.value))
      && (Is("pending") ==> deploys == 0)
      && (deploys == 0 ==> jobCreatedId == None)
      && deploys <= 1
      && queue[VMDeploy] <= deploys
      && idWrites == (if instanceId.Some? then 1 else 0)
      && forall i :: 0 <= i < |sent| ==> NeedsMachine(sent[i].request) ==> sent[i].created
    }

    /** What no step undoes: "pending" is left for good, the creation job goes from nothing to an id to "1", and the
        machine's id comes with that last move and stays. */
    twostate predicate Advances()
      reads this
    {
      && (old(jobCreatedId).Some? ==> jobCreatedId == old(jobCreatedId) || Created())
      && (old(Created()) ==> Created() && instanceId == old(instanceId))
      && (Is("pending") ==> old(Is("pending")))
      && deploys >= old(deploys) && old(sent) <= sent
    }

    /** A method that deploys nothing and queues no deployment. */
    twostate predicate NoDeploy()
      reads this
    {
      deploys == old(deploys) && queue[VMDeploy] == old(queue[VMDeploy])
    }

    /** The last request, and its answer is the job now remembered. */
    ghost predicate Requested(request: Request)
      reads this
    {
      && sent != [] && sent[|sent| - 1].request == request
      && requests > 0 && reply(requests - 1) == Job(jobId)
    }

    /** postRequest */
    method Post(request: Request) returns (r: Reply)
      requires Valid() && (NeedsMachine(request) ==> Created())
      modifies this`requests, this`sent
      ensures Valid() && Sane(r) && r == reply(old(requests)) && requests == old(requests) + 1
      ensures sent == old(sent) + [Sent(request, Created())]
    {
      r := reply(requests);
      requests := requests + 1;
      sent := sent + [Sent(request, Created())];
    }

    /** updateState */
    method UpdateState() returns (r: StateAnswer)
      requires Valid()
      modifies this`requests, this`sent, this`state
      ensures Valid() && Advances() && NoDeploy()
      ensures if old(Is("destroyed")) then r == NoState && sent == old(sent) && requests == old(requests)
              else requests == old(requests) + 1 && sent == old(sent) + [Sent(ListVms(instanceId), Created())]
                   && r == match reply(old(requests))
                           case Vm(reported) => State(reported)
                           case NoReply => NoState
                           case _ => StateRaised
      ensures state == if r.State? then r.state else old(state)
      ensures r.State? ==> !Is("pending")
    {
      hide Lower, ToBool;
      if Is("destroyed") {
        return NoState;
      }
      var res := Post(ListVms(instanceId));
      if res.NoReply? {
        return NoState;
      }
      if !res.Vm? {
        return StateRaised;
      }
      state := res.state;
      r := State(state);
    }

    /** isCreated: polls the creation job until it is done, then the state. */
    method IsCreated() returns (r: Answer)
      requires Valid()
      modifies this`requests, this`sent, this`state, this`jobCreatedId, this`instanceId, this`idWrites
      ensures Valid() && Advances() && NoDeploy()
      ensures r == Yes <==> Exists(old(jobCreatedId), old(state), reply, old(requests))
      ensures r == Raised <==> Breaks(old(jobCreatedId), old(state), reply, old(requests))
      ensures r == Yes ==>
                && Created() && !Gone(state)
                && state == StateThen(old(jobCreatedId), old(state), reply, old(requests))
                && requests == Listing(old(jobCreatedId), old(requests)) + 1
      ensures old(jobCreatedId) == None ==> r == No && state == old(state) && sent == old(sent)
    {
      hide Lower, ToBool;
      OneIsTrue();
      if jobCreatedId == None {
        return No;
      }
      if !ToBool(jobCreatedId.value) {
        var done := QueryCreation();
        if done != Yes {
          return done;
        }
      }
      if Is("destroying") || Is("destroyed") {
        return No;
      }
      var s := UpdateState();
      if s == StateRaised {
        return Raised;
      }
      if Is("destroying") || Is("destroyed") {
        return No;
      }
      return Yes;
    }

    /** The query inside isCreated: a finished job gives the machine's id and state, once and for all. */
    method QueryCreation() returns (r: Answer)
      requires Valid() && jobCreatedId.Some? && !ToBool(jobCreatedId.value)
      modifies this`requests, this`sent, this`state, this`jobCreatedId, this`instanceId, this`idWrites
      ensures Valid() && Advances() && NoDeploy()
      ensures r == Yes <==> Completes(reply(old(requests)))
      ensures r == No <==> Unfinished(reply(old(requests)))
      ensures sent == old(sent) + [Sent(QueryJob(old(jobCreatedId)), false)] && requests == old(requests) + 1
      ensures r == Yes ==>
                && jobCreatedId == Some("1") && instanceId == Some(reply(old(requests)).vm.value.0)
                && state == reply(old(requests)).vm.value.1
      ensures r != Yes ==> jobCreatedId == old(jobCreatedId) && instanceId == old(instanceId)
      ensures r == No ==>
                state == match reply(old(requests))
                         case JobResult(Text(status), _) => if status == "0" then old(state) else "Error"
                         case _ => old(state)
      ensures r == Raised ==> state == old(state)
    {
      LowerError();
      hide Lower, ToBool;
      OneIsTrue();
      assert !Created();
      var job := Post(QueryJob(jobCreatedId));
      if job.NoReply? {
        return No;
      }
      if !job.JobResult? || job.status.Number? {
        return Raised;
      }
      if !ToBool(job.status.text) {
        if job.status.text != "0" {
          state := "Error";
        }
        return No;
      }
      if job.vm == None {
        return Raised;
      }
      instanceId, state, jobCreatedId := Some(job.vm.value.0), job.vm.value.1, Some("1");
      idWrites := idWrites + 1;
      return Yes;
    }

    /** deploy */
    method Deploy() returns (r: Answer)
      requires Valid()
      modifies this`requests, this`sent, this`state, this`jobCreatedId, this`queue, this`deploys
      ensures Valid() && Advances()
      ensures r == Yes <==> old(Is("pending")) && reply(old(requests)).Job?
      ensures r == Yes ==>
                && state == "approving" && jobCreatedId == reply(old(requests)).jobid
                && queue == old(queue) + multiset{VMDeploy} && deploys == old(deploys) + 1
      ensures r != Yes ==>
                && state == old(state) && jobCreatedId == old(jobCreatedId)
                && queue == old(queue) && deploys == old(deploys)
      ensures sent == if old(Is("pending")) then old(sent) + [Sent(DeployVm, false)] else old(sent)
    {
      LowerError();
      hide Lower, ToBool;
      if !Is("pending") {
        return No;
      }
      var res := Post(DeployVm);
      if res.NoReply? {
        return No;
      }
      if !res.Job? {
        return Raised;
      }
      OneIsTrue();
      jobCreatedId := res.jobid;
      state := "approving";
      deploys := deploys + 1;
      queue := queue + multiset{VMDeploy};
      return Yes;
    }

    /** canStart?, canStop? and canDestroy? */
    method CanStart() returns (r: Answer)
      requires Valid()
      modifies this`requests, this`sent, this`state, this`jobCreatedId, this`instanceId, this`idWrites
      ensures Valid() && Advances() && NoDeploy()
      ensures r == Yes <==>
                && Exists(old(jobCreatedId), old(state), reply, old(requests))
                && Lower(StateThen(old(jobCreatedId), old(state), reply, old(requests))) == "stopped"
      ensures r == Yes ==> Created() && Is("stopped") && requests == Listing(old(jobCreatedId), old(requests)) + 1
    {
      hide Lower, ToBool;
      r := IsCreated();
      if r == Yes && !Is("stopped") {
        r := No;
      }
    }

    method CanStop() returns (r: Answer)
      requires Valid()
      modifies this`requests, this`sent, this`state, this`jobCreatedId, this`instanceId, this`idWrites
      ensures Valid() && Advances() && NoDeploy()
      ensures r == Yes <==>
                && Exists(old(jobCreatedId), old(state), reply, old(requests))
                && Lower(StateThen(old(jobCreatedId), old(state), reply, old(requests))) == "running"
      ensures r == Yes ==> Created() && Is("running") && requests == Listing(old(jobCreatedId), old(requests)) + 1
    {
      hide Lower, ToBool;
      r := IsCreated();
      if r == Yes && !Is("running") {
        r := No;
      }
    }

    method CanDestroy() returns (r: Answer)
      requires Valid()
      modifies this`requests, this`sent, this`state, this`jobCreatedId, this`instanceId, this`idWrites
      ensures Valid() && Advances() && NoDeploy()
      ensures r == Yes <==> !Gone(old(state)) && Exists(old(jobCreatedId), old(state), reply, old(requests))
      ensures r == Yes ==> Created() && !Gone(state) && requests == Listing(old(jobCreatedId), old(requests)) + 1
    {
      hide Lower, ToBool;
      if Is("destroying") || Is("destroyed") {
        return No;
      }
      r := IsCreated();
    }

    /** The end of start, stop and destroy_vm: the request, and its job and the new state if it was taken. */
    method Send(request: Request, next: string) returns (r: Answer)
      requires Valid() && (NeedsMachine(request) ==> Created()) && Lower(next) != "pending"
      modifies this`requests, this`sent, this`jobId, this`state
      ensures Valid() && Advances()
      ensures r == Yes <==> reply(old(requests)).Job?
      ensures sent == old(sent) + [Sent(request, Created())]
      ensures r == Yes ==> Requested(request) && state == next
      ensures r != Yes ==> jobId == old(jobId) && state == old(state)
    {
      hide Lower, ToBool;
      var res := Post(request);
      if res.NoReply? {
        return No;
      }
      if !res.Job? {
        return Raised;
      }
      jobId, state := res.jobid, next;
      return Yes;
    }

    /** start */
    method Start() returns (r: Answer)
      requires Valid()
      modifies this`requests, this`sent, this`state, this`jobCreatedId, this`instanceId, this`idWrites, this`jobId,
          this`queue
      ensures Valid() && Advances() && NoDeploy()
      ensures r == Yes <==> Startable(old(jobCreatedId), old(state), reply, old(requests))
      ensures r == Yes ==>
                && Created() && Requested(StartVm(instanceId)) && state == "starting"
                && queue == old(queue) + multiset{VMStart}
      ensures r != Yes ==> queue == old(queue) && jobId == old(jobId)
    {
      LowerError();
      hide Lower, ToBool, SaneCloud, Exists, StateThen;
      var s := UpdateState();
      if s == StateRaised {
        return Raised;
      }
      r := StartStopped();
    }

    /** The rest of start. */
    method StartStopped() returns (r: Answer)
      requires Valid()
      modifies this`requests, this`sent, this`state, this`jobCreatedId, this`instanceId, this`idWrites, this`jobId,
          this`queue
      ensures Valid() && Advances() && NoDeploy()
      ensures r == Yes <==>
                && Exists(old(jobCreatedId), old(state), reply, old(requests))
                && Lower(StateThen(old(jobCreatedId), old(state), reply, old(requests))) == "stopped"
                && reply(Listing(old(jobCreatedId), old(requests)) + 1).Job?
      ensures r == Yes ==>
                && Created() && Requested(StartVm(instanceId)) && state == "starting"
                && queue == old(queue) + multiset{VMStart}
      ensures r != Yes ==> queue == old(queue) && jobId == old(jobId)
    {
      LowerError();
      hide Lower, ToBool, SaneCloud, Exists, StateThen;
      r := CanStart();
      if r != Yes {
        return;
      }
      r := Send(StartVm(instanceId), "starting");
      if r != Yes {
        return;
      }
      queue := queue + multiset{VMStart};
    }

    /** stop */
    method Stop(forced: bool) returns (r: Answer)
      requires Valid()
      modifies this`requests, this`sent, this`state, this`jobCreatedId, this`instanceId, this`idWrites, this`jobId,
          this`queue
      ensures Valid() && Advances() && NoDeploy()
      ensures r == Yes <==> Stoppable(forced, old(jobCreatedId), old(state), reply, old(requests))
      ensures r == Yes ==> Requested(StopVm(instanceId, forced)) && state == if forced then "stopped" else "stopping"
      ensures r == Yes && !forced ==> Created() && queue == old(queue) + multiset{VMStop}
      ensures r != Yes || forced ==> queue == old(queue)
      ensures r != Yes ==> jobId == old(jobId)
    {
      LowerError();
      hide Lower, ToBool, SaneCloud, Exists, StateThen;
      var s := UpdateState();
      if s == StateRaised {
        return Raised;
      }
      if s == NoState {
        return No;
      }
      if forced {
        r := Send(StopVm(instanceId, true), "stopped");
        return;
      }
      r := StopRunning();
    }

    /** The branch of stop that is not forced. */
    method StopRunning() returns (r: Answer)
      requires Valid()
      modifies this`requests, this`sent, this`state, this`jobCreatedId, this`instanceId, this`idWrites, this`jobId,
          this`queue
      ensures Valid() && Advances() && NoDeploy()
      ensures r == Yes <==>
                && Exists(old(jobCreatedId), old(state), reply, old(requests))
                && Lower(StateThen(old(jobCreatedId), old(state), reply, old(requests))) == "running"
                && reply(Listing(old(jobCreatedId), old(requests)) + 1).Job?
      ensures r == Yes ==>
                && Created() && Requested(StopVm(instanceId, false)) && state == "stopping"
                && queue == old(queue) + multiset{VMStop}
      ensures r != Yes ==> queue == old(queue) && jobId == old(jobId)
    {
      LowerError();
      hide Lower, ToBool, SaneCloud, Exists, StateThen;
      r := CanStop();
      if r != Yes {
        return;
      }
      r := Send(StopVm(instanceId, false), "stopping");
      if r != Yes {
        return;
      }
      queue := queue + multiset{VMStop};
    }

    /** destroy_vm */
    method DestroyVm() returns (r: Answer)
      requires Valid()
      modifies this`requests, this`sent, this`state, this`jobCreatedId, this`instanceId, this`idWrites, this`jobId,
          this`queue
      ensures Valid() && Advances() && NoDeploy()
      ensures r == Yes <==> Destroyable(old(jobCreatedId), old(state), reply, old(requests))
      ensures r == Yes ==>
                && Created() && Requested(Request.DestroyVm(instanceId)) && state == "Destroying"
                && queue == old(queue) + multiset{VMDestroy(jobId)}
      ensures r != Yes ==> queue == old(queue) && jobId == old(jobId)
    {
      LowerError();
      hide Lower, ToBool, SaneCloud, Exists, StateThen;
      var s := UpdateState();
      if s == StateRaised {
        return Raised;
      }
      if s == NoState {
        return No;
      }
      r := DestroyExisting();
    }

    /** The rest of destroy_vm. */
    method DestroyExisting() returns (r: Answer)
      requires Valid()
      modifies this`requests, this`sent, this`state, this`jobCreatedId, this`instanceId, this`idWrites, this`jobId,
          this`queue
      ensures Valid() && Advances() && NoDeploy()
      ensures r == Yes <==>
                && !Gone(old(state)) && Exists(old(jobCreatedId), old(state), reply, old(requests))
                && reply(Listing(old(jobCreatedId), old(requests)) + 1).Job?
      ensures r == Yes ==>
                && Created() && Requested(Request.DestroyVm(instanceId)) && state == "Destroying"
                && queue == old(queue) + multiset{VMDestroy(jobId)}
      ensures r != Yes ==> queue == old(queue) && jobId == old(jobId)
    {
      LowerError();
      hide Lower, ToBool, SaneCloud, Exists, StateThen;
      r := CanDestroy();
      if r != Yes {
        return;
      }
      r := Send(Request.DestroyVm(instanceId), "Destroying");
      if r != Yes {
        return;
      }
      queue := queue + multiset{VMDestroy(jobId)};
    }

    /** VNCToSPICEProtocol; switched is what the script on the host answers. */
    method VncToSpiceProtocol(switched: Option<(string, string)>) returns (r: Answer)
      requires Valid()
      modifies this`requests, this`sent, this`state, this`jobCreatedId, this`instanceId, this`idWrites, this`spice
      ensures Valid() && Advances() && NoDeploy()
      ensures r == Yes <==>
                && Exists(old(jobCreatedId), old(state), reply, old(requests)) && switched != None
                && var answer := reply(Listing(old(jobCreatedId), old(requests)) + 1);
                   answer.Vm? && Lower(answer.state) == "running"
      ensures r == Yes ==> Created() && Is("running") && spice == switched
      ensures r != Yes ==> spice == old(spice)
    {
      hide Lower, ToBool;
      r := IsCreated();
      if r != Yes {
        return;
      }
      var s := UpdateState();
      if !s.State? {
        return Raised;
      }
      if !Is("running") || switched == None {
        return No;
      }
      spice := switched;
      return Yes;
    }

    // -------------------------------------------------------------- workers

    /** VMDeploy.perform: the state in its copy of the record is "approving", never "error", so it polls until the
        machine exists. */
    method PerformDeploy(switched: Option<(string, string)>) returns (r: Outcome)
      requires Valid() && deploys == 1 && queue[VMDeploy] == 0
      modifies this`requests, this`sent, this`state, this`jobCreatedId, this`instanceId, this`idWrites, this`spice,
          this`queue
      ensures Valid() && Advances()
      ensures queue == if r == Again then old(queue) + multiset{VMDeploy} else old(queue)
      ensures r == Again <==>
                && !Exists(old(jobCreatedId), old(state), reply, old(requests))
                && !Breaks(old(jobCreatedId), old(state), reply, old(requests))
      ensures r == Finished ==> Created()
    {
      hide Lower, ToBool;
      var a := IsCreated();
      if a == No {
        queue := queue + multiset{VMDeploy};
        return Again;
      }
      if a == Yes {
        a := VncToSpiceProtocol(switched);
      }
      r := if a == Raised then Broken else Finished;
    }

    /** VMStart.perform */
    method PerformStart(switched: Option<(string, string)>) returns (r: Outcome)
      requires Valid()
      modifies this`requests, this`sent, this`state, this`jobCreatedId, this`instanceId, this`idWrites, this`spice,
          this`queue
      ensures Valid() && Advances()
      ensures queue == if r == Again then old(queue) + multiset{VMStart} else old(queue)
      ensures r == Again <==>
                || old(Is("destroyed")) || reply(old(requests)) == NoReply
                || (reply(old(requests)).Vm? && Lower(reply(old(requests)).state) == "starting")
    {
      hide Lower, ToBool;
      var s := UpdateState();
      if s == StateRaised {
        return Broken;
      }
      if s == NoState || Lower(s.state) == "starting" {
        queue := queue + multiset{VMStart};
        return Again;
      }
      var a := Yes;
      if Lower(s.state) == "running" {
        a := VncToSpiceProtocol(switched);
      }
      r := if a == Raised then Broken else Finished;
    }

    /** VMStop.perform */
    method PerformStop() returns (r: Outcome)
      requires Valid()
      modifies this`requests, this`sent, this`state, this`queue
      ensures Valid() && Advances()
      ensures queue == if r == Again then old(queue) + multiset{VMStop} else old(queue)
      ensures r == Again <==>
                || old(Is("destroyed")) || reply(old(requests)) == NoReply
                || (reply(old(requests)).Vm? && Lower(reply(old(requests)).state) == "stopping")
    {
      hide Lower, ToBool;
      var s := UpdateState();
      if s == StateRaised {
        return Broken;
      }
      if s == NoState || Lower(s.state) == "stopping" {
        queue := queue + multiset{VMStop};
        return Again;
      }
      return Finished;
    }

    /** VMDestroy.perform: it compares the status with numbers, so a status given as text leads nowhere. */
    method PerformDestroy(job: Option<string>) returns (r: Outcome)
      requires Valid()
      modifies this`requests, this`sent, this`state, this`queue
      ensures Valid() && Advances()
      ensures queue == if r == Again then old(queue) + multiset{VMDestroy(job)} else old(queue)
      ensures state == match reply(old(requests))
                       case NoReply => "Error"
                       case JobResult(Number(n), _) =>
                         if n == 2 then "Error" else if n == 1 then "Destroyed" else old(state)
                       case _ => old(state)
      ensures r == Again <==> reply(old(requests)).JobResult? && reply(old(requests)).status == Number(0)
    {
      LowerError();
      hide Lower, ToBool, SaneCloud;
      var res := Post(QueryJob(job));
      if res.NoReply? {
        state := "Error";
        return Finished;
      }
      if !res.JobResult? {
        return Broken;
      }
      if res.status == Number(2) {
        state := "Error";
      } else if res.status == Number(0) {
        queue := queue + multiset{VMDestroy(job)};
        return Again;
      } else if res.status == Number(1) {
        state := "Destroyed";
      }
      return Finished;
    }

    /** The worker that a job names. */
    method Dispatch(job: Job, switched: Option<(string, string)>) returns (r: Outcome)
      requires Valid() && (job == VMDeploy ==> deploys == 1 && queue[VMDeploy] == 0)
      modifies this
      ensures Valid() && Advances() && deploys == old(deploys)
      ensures queue == if r == Again then old(queue) + multiset{job} else old(queue)
    {
      hide Lower, ToBool, Instance.Valid, Advances, Created, Is;
      match job {
        case VMDeploy => r := PerformDeploy(switched);
        case VMStart => r := PerformStart(switched);
        case VMStop => r := PerformStop();
        case VMDestroy(id) => r := PerformDestroy(id);
      }
    }

    /** One job from the queue; after an exception Sidekiq may put it back. */
    method Perform(job: Job, retry: bool, switched: Option<(string, string)>)
      requires Valid() && job in queue
      modifies this
      ensures Valid() && Advances() && deploys == old(deploys)
      ensures queue == old(queue) || queue == old(queue) - multiset{job}
    {
      hide Lower, ToBool, SaneCloud;
      queue := queue - multiset{job};
      var r := Dispatch(job, switched);
      if r == Broken && retry {
        queue := queue + multiset{job};
      }
    }

    /** One atomic step. */
    method Step(event: Event) returns (deployed: bool)
      requires Valid()
      modifies this
      ensures Valid() && Advances() && deploys == old(deploys) + if deployed then 1 else 0
      ensures deployed ==> event == CallDeploy && old(Is("pending"))
    {
      hide Lower, ToBool;
      deployed := false;
      var r, s;
      match event {
        case CallDeploy =>
          r := Deploy();
          deployed := r == Yes;
        case CallStart => r := Start();
        case CallStop(forced) => r := Stop(forced);
        case CallDestroy => r := DestroyVm();
        case CallIsCreated => r := IsCreated();
        case CallUpdateState => s := UpdateState();
        case CallSpice(switched) => r := VncToSpiceProtocol(switched);
        case Work(job, retry, switched) =>
          if job in queue {
            Perform(job, retry, switched);
          }
      }
    }

    /** Every interleaving of methods and workers, from a new record on. */
    method Run(events: seq<Event>) returns (deployments: nat)
      requires Valid() && deploys == 0
      modifies this
      ensures Valid() && Advances() && deployments == deploys
      ensures deployments <= 1 && queue[VMDeploy] <= deployments && idWrites <= 1
      ensures deployments == 1 ==> !Is("pending")
      ensures instanceId.Some? <==> Created()
      ensures forall i :: 0 <= i < |sent| ==> NeedsMachine(sent[i].request) ==> sent[i].created
    {
      hide Lower, ToBool;
      deployments := 0;
      for k := 0 to |events|
        invariant Valid() && Advances() && deployments == deploys
      {
        var deployed := Step(events[k]);
        if deployed {
          deployments := deployments + 1;
        }
      }
    }
  }

  /** What may happen next: a call from a controller, or a worker taking a job. */
  datatype Event =
    | CallDeploy
    | CallStart
    | CallStop(forced: bool)
    | CallDestroy
    | CallIsCreated
    | CallUpdateState
    | CallSpice(switched: Option<(string, string)>)
    | Work(job: Job, retry: bool, switched: Option<(string, string)>)

  /** The states that the portal itself writes. */
  lemma LowerError()
    ensures Lower("Error") != "pending" && Lower("approving") != "pending" && Lower("starting") != "pending"
    ensures Lower("stopping") != "pending" && Lower("stopped") != "pending" && Lower("Destroying") != "pending"
    ensures Lower("Destroyed") != "pending"
  {
    assert Lower("Error")[0] == 'e';
    assert Lower("approving")[0] == 'a';
    assert Lower("starting")[0] == 's';
    assert Lower("stopping")[0] == 's';
    assert Lower("stopped")[0] == 's';
    assert Lower("Destroying")[0] == 'd';
    assert Lower("Destroyed")[0] == 'd';
  }
}
