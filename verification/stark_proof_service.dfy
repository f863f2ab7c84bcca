/**
 The bookkeeping of `StarkProofService`, the wallet's tracker of STARK
 proof generation for burn transactions.

 The service keeps, per transaction hash, a status string, a progress
 percentage, an error message and possibly a handle to an external prover
 process. The Qt object is modelled as an immutable record; each slot is a
 function from the record before the call to the record after it. The
 signals the service emits and the jobs it queues on its worker thread are
 appended to an effect log, so that "nothing is emitted" can be stated.
 */
module StarkProofService {
  import opened Wrappers

  /** A transaction hash, the key of every map. */
  type TxHash = string

  /** `quint64`. */
  type Amount = x: nat | x < 0x1_0000_0000_0000_0000

  /** `QProcess::ProcessState`. */
  datatype ProcessState = NotRunning | Starting | Running

  /** What the service can ask a `QProcess` for. */
  datatype Process = Process(state: ProcessState, exitCode: int)

  /** Signals emitted and jobs queued, in order. */
  datatype Effect =
    | ProofStarted(tx: TxHash)
    | ProofQueued(tx: TxHash, recipient: string, amount: Amount)
    | ProofCompleted(tx: TxHash, success: bool, message: string)

  /**
   The service's state. A process entry of `None` is a tracked null
   `QProcess*`.
   */
  datatype Service = Service(
    enabled: bool,
    status: map<TxHash, string>,
    progress: map<TxHash, int>,
    errors: map<TxHash, string>,
    processes: map<TxHash, Option<Process>>,
    effects: seq<Effect>
  )

  /** The maps of two states agree on every key other than `tx`. */
  predicate SameElsewhere(s: Service, t: Service, tx: TxHash) {
    && s.status - {tx} == t.status - {tx}
    && s.progress - {tx} == t.progress - {tx}
    && s.errors - {tx} == t.errors - {tx}
    && s.processes - {tx} == t.processes - {tx}
  }

  /** The service as constructed: enabled, nothing tracked, nothing emitted. */
  function Initial(): (s: Service)
    ensures s.enabled
    ensures s.status == map[] && s.progress == map[] && s.errors == map[] && s.processes == map[]
    ensures s.effects == []
  {
    Service(true, map[], map[], map[], map[], [])
  }

  /** `isBurnTransaction`: a placeholder that recognises no transaction. */
  function IsBurnTransaction(tx: TxHash, amount: Amount): (burn: bool)
    ensures !burn
  {
    false
  }

  /** `isEnabled`. */
  function IsEnabled(s: Service): (enabled: bool)
    ensures enabled <==> s.enabled
  {
    s.enabled
  }

  /** `setEnabled`: only the flag changes. */
  function SetEnabled(s: Service, enabled: bool): (t: Service)
    ensures IsEnabled(t) == enabled
    ensures t.status == s.status && t.progress == s.progress && t.errors == s.errors
    ensures t.processes == s.processes && t.effects == s.effects
  {
    s.(enabled := enabled)
  }

  /**
   `generateStarkProof`: when disabled, nothing at all happens; otherwise the
   started signal is emitted and the job is queued, and no map changes.
   */
  function GenerateStarkProof(s: Service, tx: TxHash, recipient: string, amount: Amount): (t: Service)
    ensures !s.enabled ==> t == s
    ensures t.enabled == s.enabled
    ensures t.status == s.status && t.progress == s.progress && t.errors == s.errors
    ensures t.processes == s.processes
    ensures |t.effects| >= |s.effects| && t.effects[..|s.effects|] == s.effects
    ensures s.enabled ==> t.effects[|s.effects|..] == [ProofStarted(tx), ProofQueued(tx, recipient, amount)]
  {
    if !s.enabled then s
    else s.(effects := s.effects + [ProofStarted(tx), ProofQueued(tx, recipient, amount)])
  }

  /**
   `onProofGenerationCompleted`: success marks the proof completed at 100%
   and forgets its error; failure marks it failed with the message and leaves
   its progress alone. Either way the completion is re-emitted.
   */
  function OnProofGenerationCompleted(s: Service, tx: TxHash, success: bool, message: string): (t: Service)
    ensures SameElsewhere(s, t, tx) && t.processes == s.processes && t.enabled == s.enabled
    ensures tx in t.status && t.status[tx] == (if success then "completed" else "failed")
    ensures success ==> tx in t.progress && t.progress[tx] == 100 && tx !in t.errors
    ensures !success ==> t.progress == s.progress && tx in t.errors && t.errors[tx] == message
    ensures t.effects == s.effects + [ProofCompleted(tx, success, message)]
  {
    var done := s.(effects := s.effects + [ProofCompleted(tx, success, message)]);
    if success then
      done.(status := s.status[tx := "completed"], progress := s.progress[tx := 100], errors := s.errors - {tx})
    else
      done.(status := s.status[tx := "failed"], errors := s.errors[tx := message])
  }

  /** `retryProofGeneration`: the proof goes back to pending at 0% with no error; started is re-emitted. */
  function RetryProofGeneration(s: Service, tx: TxHash): (t: Service)
    ensures SameElsewhere(s, t, tx) && t.processes == s.processes && t.enabled == s.enabled
    ensures tx in t.status && t.status[tx] == "pending"
    ensures tx in t.progress && t.progress[tx] == 0
    ensures tx !in t.errors
    ensures t.effects == s.effects + [ProofStarted(tx)]
  {
    s.(status := s.status[tx := "pending"], progress := s.progress[tx := 0],
       errors := s.errors - {tx}, effects := s.effects + [ProofStarted(tx)])
  }

  /** `getProofProgress`: the recorded percentage, 0 when there is none. */
  function GetProofProgress(s: Service, tx: TxHash): (p: int)
    ensures tx in s.progress ==> p == s.progress[tx]
    ensures tx !in s.progress ==> p == 0
  {
    if tx in s.progress then s.progress[tx] else 0
  }

  /** `getProofErrorMessage`: the recorded message, empty when there is none. */
  function GetProofErrorMessage(s: Service, tx: TxHash): (m: string)
    ensures tx in s.errors ==> m == s.errors[tx]
    ensures tx !in s.errors ==> m == ""
  {
    if tx in s.errors then s.errors[tx] else ""
  }

  /**
   `getProofStatus`: a tracked, non-null process that is running or finished
   decides the answer ("running", or "completed"/"failed" by exit code);
   otherwise the recorded status, "none" when there is none.
   */
  function GetProofStatus(s: Service, tx: TxHash): (status: string)
    ensures tx in s.processes && s.processes[tx].Some? && s.processes[tx].value.state == Running ==>
      status == "running"
    ensures tx in s.processes && s.processes[tx].Some? && s.processes[tx].value.state == NotRunning ==>
      status == (if s.processes[tx].value.exitCode == 0 then "completed" else "failed")
    ensures !(tx in s.processes && s.processes[tx].Some? && s.processes[tx].value.state != Starting) ==>
      status == (if tx in s.status then s.status[tx] else "none")
  {
    if tx in s.processes && s.processes[tx].Some? && s.processes[tx].value.state == Running then "running"
    else if tx in s.processes && s.processes[tx].Some? && s.processes[tx].value.state == NotRunning then
      if s.processes[tx].value.exitCode == 0 then "completed" else "failed"
    else if tx in s.status then s.status[tx]
    else "none"
  }

  /** `storeProcess`: the process is tracked and the recorded status becomes "running". */
  function StoreProcess(s: Service, tx: TxHash, process: Option<Process>): (t: Service)
    ensures SameElsewhere(s, t, tx)
    ensures tx in t.processes && t.processes[tx] == process
    ensures tx in t.status && t.status[tx] == "running"
    ensures t.progress == s.progress && t.errors == s.errors
    ensures t.enabled == s.enabled && t.effects == s.effects
  {
    s.(processes := s.processes[tx := process], status := s.status[tx := "running"])
  }

  /** `removeProcess`: the process is forgotten; the recorded status is left as it was. */
  function RemoveProcess(s: Service, tx: TxHash): (t: Service)
    ensures SameElsewhere(s, t, tx)
    ensures tx !in t.processes
    ensures t.status == s.status && t.progress == s.progress && t.errors == s.errors
    ensures t.enabled == s.enabled && t.effects == s.effects
  {
    s.(processes := s.processes - {tx})
  }

  /** Every call a client can make that changes the service. */
  datatype Command =
    | Generate(tx: TxHash, recipient: string, amount: Amount)
    | Enable(enabled: bool)
    | Complete(tx: TxHash, success: bool, message: string)
    | Retry(tx: TxHash)
    | Store(tx: TxHash, process: Option<Process>)
    | Remove(tx: TxHash)

  function Apply(s: Service, c: Command): Service {
    match c
    case Generate(tx, recipient, amount) => GenerateStarkProof(s, tx, recipient, amount)
    case Enable(enabled) => SetEnabled(s, enabled)
    case Complete(tx, success, message) => OnProofGenerationCompleted(s, tx, success, message)
    case Retry(tx) => RetryProofGeneration(s, tx)
    case Store(tx, process) => StoreProcess(s, tx, process)
    case Remove(tx) => RemoveProcess(s, tx)
  }

  /** The state after a sequence of calls. */
  function Run(s: Service, cs: seq<Command>): Service
    decreases |cs|
  {
    if |cs| == 0 then s else Run(Apply(s, cs[0]), cs[1..])
  }

  /** Whether a command can change what is reported for `tx`. */
  predicate Touches(c: Command, tx: TxHash) {
    (c.Complete? || c.Retry? || c.Store? || c.Remove?) && c.tx == tx
  }

  /** Only the given key changes: the three queries for every other transaction answer as before. */
  lemma OnlyTheGivenKeyChanges(s: Service, c: Command, other: TxHash)
    requires !Touches(c, other)
    ensures GetProofStatus(Apply(s, c), other) == GetProofStatus(s, other)
    ensures GetProofProgress(Apply(s, c), other) == GetProofProgress(s, other)
    ensures GetProofErrorMessage(Apply(s, c), other) == GetProofErrorMessage(s, other)
  {
  }

  /** The statuses `getProofStatus` can report. */
  predicate KnownStatus(status: string) {
    status in {"none", "pending", "running", "completed", "failed"}
  }

  /** What every reachable state satisfies: progress is 0 or 100 and every recorded status is known. */
  predicate Invariant(s: Service) {
    && (forall tx :: tx in s.progress ==> s.progress[tx] == 0 || s.progress[tx] == 100)
    && (forall tx :: tx in s.status ==> KnownStatus(s.status[tx]))
  }

  lemma ApplyKeepsInvariant(s: Service, c: Command)
    requires Invariant(s)
    ensures Invariant(Apply(s, c))
  {
  }

  /**
   From the initial state, whatever the sequence of calls, progress is only
   ever reported as 0 or 100 and the status is one of the five known strings.
   */
  lemma {:induction false} ReachableReports(s: Service, cs: seq<Command>, tx: TxHash)
    requires Invariant(s)
    ensures Invariant(Run(s, cs))
    ensures GetProofProgress(Run(s, cs), tx) == 0 || GetProofProgress(Run(s, cs), tx) == 100
    ensures KnownStatus(GetProofStatus(Run(s, cs), tx))
    decreases |cs|
  {
    if |cs| > 0 {
      ApplyKeepsInvariant(s, cs[0]);
      ReachableReports(Apply(s, cs[0]), cs[1..], tx);
    }
  }

  /** After a successful completion with no live process tracked, the queries report it. */
  lemma CompletionReported(s: Service, tx: TxHash, message: string)
    requires tx !in s.processes || s.processes[tx].None? || s.processes[tx].value.state == Starting
    ensures GetProofStatus(OnProofGenerationCompleted(s, tx, true, message), tx) == "completed"
    ensures GetProofProgress(OnProofGenerationCompleted(s, tx, true, message), tx) == 100
    ensures GetProofErrorMessage(OnProofGenerationCompleted(s, tx, true, message), tx) == ""
  {
  }

  /** After a failed completion with no live process tracked, the message is reported and progress is kept. */
  lemma FailureReported(s: Service, tx: TxHash, message: string)
    requires tx !in s.processes || s.processes[tx].None? || s.processes[tx].value.state == Starting
    ensures GetProofStatus(OnProofGenerationCompleted(s, tx, false, message), tx) == "failed"
    ensures GetProofProgress(OnProofGenerationCompleted(s, tx, false, message), tx) == GetProofProgress(s, tx)
    ensures GetProofErrorMessage(OnProofGenerationCompleted(s, tx, false, message), tx) == message
  {
  }

  /** Retrying a failed proof clears what the failure recorded. */
  lemma RetryAfterFailure(s: Service, tx: TxHash, message: string)
    requires tx !in s.processes || s.processes[tx].None? || s.processes[tx].value.state == Starting
    ensures var t := RetryProofGeneration(OnProofGenerationCompleted(s, tx, false, message), tx);
      && GetProofStatus(t, tx) == "pending"
      && GetProofProgress(t, tx) == 0
      && GetProofErrorMessage(t, tx) == ""
  {
  }

  /** A live tracked process decides the status whatever was recorded: a completion does not override it. */
  lemma ProcessOverridesCompletion(s: Service, tx: TxHash, p: Process, success: bool, message: string)
    requires p.state != Starting
    ensures var t := OnProofGenerationCompleted(StoreProcess(s, tx, Some(p)), tx, success, message);
      GetProofStatus(t, tx) == (if p.state == Running then "running" else if p.exitCode == 0 then "completed" else "failed")
  {
  }

  /** Removing a stored process leaves the status it recorded: "running" until a completion arrives. */
  lemma RemovedProcessStillRunning(s: Service, tx: TxHash, p: Option<Process>)
    ensures GetProofStatus(RemoveProcess(StoreProcess(s, tx, p), tx), tx) == "running"
  {
  }

  /** While disabled, any number of proof requests leaves the service exactly as it was. */
  lemma {:induction false} DisabledIgnoresRequests(s: Service, cs: seq<Command>)
    requires !s.enabled
    requires forall i :: 0 <= i < |cs| ==> cs[i].Generate?
    ensures Run(s, cs) == s
    decreases |cs|
  {
    if |cs| > 0 {
      DisabledIgnoresRequests(Apply(s, cs[0]), cs[1..]);
    }
  }
}
