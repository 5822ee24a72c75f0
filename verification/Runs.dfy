/** Runs of the whole device, bus events, polls and SPI commands one at a time in any order, and what can be
    concluded from their record. */
module Runs {
  import opened Commands
  import opened Disk
  import opened Driver
  import opened Drives
  import opened EndToEnd
  import opened MscHosts
  import opened Protocol
  import opened SpiLinks
  import opened Watchdog
  import opened Words
  import Crc

  /** One atomic step of the device. */
  datatype Action =
    | Connected(addr: byte)
    | Gone(drive: Drive, answers: seq<EspErr>)
    | Polled(found: Drive?, steps: InstallSteps, at: nat, measured: nat, over: nat)
    | Command(x: FullExchange)
  {
    /** The first error the library gives an install at this poll, and that it gives none. */
    function Obstacle(): EspErr
      requires Polled?
    {
      steps.Failure(found != null)
    }

    predicate Feasible()
      requires Polled?
      ensures Feasible() ==> found != null
    {
      Obstacle() == ESP_OK
    }
  }

  type Responses = seq<Option<Response>>

  predicate OnTime(a: Action, last: nat) {
    a.Polled? ==> last <= a.at <= a.measured <= a.over
  }

  function TimeAfter(a: Action, last: nat): nat {
    if a.Polled? then a.over else last
  }

  /** The time at the end if it is `last` before action `i`, unless the clock runs backwards between polls. */
  function EndTime(actions: seq<Action>, i: nat, last: nat): Option<nat>
    decreases |actions| - i
  {
    if i >= |actions| then Some(last)
    else if OnTime(actions[i], last) then EndTime(actions, i + 1, TimeAfter(actions[i], last))
    else None
  }

  predicate InTime(actions: seq<Action>, start: nat) {
    EndTime(actions, 0, start).Some?
  }

  /** The CONNECTED events among the first `n` actions. */
  function Connects(actions: seq<Action>, n: nat): nat
    requires n <= |actions|
  {
    if n == 0 then 0 else Connects(actions, n - 1) + if actions[n - 1].Connected? then 1 else 0
  }

  predicate NoneConnected(actions: seq<Action>) {
    forall i :: 0 <= i < |actions| ==> !actions[i].Connected?
  }

  lemma {:induction false} NoConnects(actions: seq<Action>, n: nat)
    requires NoneConnected(actions) && n <= |actions|
    ensures Connects(actions, n) == 0
  {
    if n > 0 {
      NoConnects(actions, n - 1);
    }
  }

  /** What polls find at the pending address, if anything, are drives that have been plugged in. */
  ghost predicate Plugged(actions: seq<Action>, drives: set<Drive>) {
    forall i :: 0 <= i < |actions| && actions[i].Polled? && actions[i].found != null ==> actions[i].found in drives
  }

  /** No event reaches the driver. */
  predicate Undisturbed(actions: seq<Action>) {
    forall i :: 0 <= i < |actions| ==> actions[i].Polled? || actions[i].Command?
  }

  /** How a record about a drive with this block size is to be read: whether it is `full`, that is, has every
      command, and whether the capacity was `known` from the start. */
  datatype View = View(full: bool, known: bool, size: u32)

  /** The cached capacity a command was judged by is the drive's own, or none if it was not known; its count is
      one short. */
  predicate Geometry(t: Turn, known: bool) {
    || (!known && t.asked == Err(ESP_ERR_INVALID_STATE))
    || (0 < |t.before| <= U32 && t.asked == Asked(t.req, t.size, |t.before| - 1))
  }

  /** The turn is about the exchange, and this is its response. */
  ghost predicate Records(t: Turn, x: FullExchange, response: Option<Response>) {
    RequestIn(x) == Some(t.req) && t.payload == x.payload && t.response == response
  }

  /** A command on record: it is the one the master sent, with the response the master got, and it did to
      the medium what a command may do. */
  ghost predicate Genuine(t: Turn, a: Action, response: Option<Response>, v: View) {
    && a.Command? && Records(t, a.x, response) && t.size == v.size && Geometry(t, v.known) && Effect(t, true)
    && (response.None? <==> LosesPayload(Some(t.req), a.x.payloadOk, t.asked))
  }

  /** The record `h` about one drive is genuine, action by action; and if it is `full`, it has every command. */
  ghost predicate Faithful(h: History, actions: seq<Action>, responses: Responses, v: View) {
    && |responses| == |h| <= |actions|
    && (h == [] ||
        var n := |h| - 1;
        && (h[n].Some? ==> Genuine(h[n].value, actions[n], responses[n], v))
        && (v.full && h[n].None? && actions[n].Command? ==> RequestIn(actions[n].x).None?)
        && Faithful(h[..n], actions, responses[..n], v))
  }

  lemma FaithfulStep(h: History, actions: seq<Action>, responses: Responses, v: View,
                     o: Option<Turn>, response: Option<Response>)
    requires Faithful(h, actions, responses, v) && |h| < |actions|
    requires o.Some? ==> Genuine(o.value, actions[|h|], response, v)
    requires v.full && o.None? && actions[|h|].Command? ==> RequestIn(actions[|h|].x).None?
    ensures Faithful(h + [o], actions, responses + [response], v)
  {
    assert (h + [o])[..|h|] == h && (responses + [response])[..|h|] == responses;
  }

  lemma LeadsOn(h: History, o: Option<Turn>, was: seq<Block>, between: seq<Block>, now: seq<Block>)
    requires Leads(h, was, between)
    requires if o.None? then now == between else o.value.before == between && o.value.after == now
    ensures Leads(h + [o], was, now)
  {
    assert (h + [o])[..|h|] == h;
  }

  lemma {:induction false} FaithfulAt(h: History, actions: seq<Action>, responses: Responses, v: View,
                                      i: nat)
    requires Faithful(h, actions, responses, v) && i < |h|
    ensures h[i].Some? ==> Genuine(h[i].value, actions[i], responses[i], v)
    ensures v.full && h[i].None? && actions[i].Command? ==> RequestIn(actions[i].x).None?
  {
    if i < |h| - 1 {
      FaithfulAt(h[..|h| - 1], actions, responses[..|h| - 1], v, i);
    }
  }

  // ----- What the master can conclude -----

  /** Every Write the master sends is for a chunk of this job, with that chunk's data, damaged or not. */
  ghost predicate SendsOnly(job: Job, actions: seq<Action>)
    requires job.Fair()
  {
    forall i :: 0 <= i < |actions| && actions[i].Command? && RequestIn(actions[i].x).Some? ==>
      Honest(job, RequestIn(actions[i].x).value, actions[i].x.payload)
  }

  /** The chunks whose Write was answered ESP_OK. */
  function AckedBy(actions: seq<Action>, responses: Responses): set<nat>
    requires |responses| <= |actions|
  {
    if responses == [] then {}
    else
      var n := |responses| - 1;
      AckedBy(actions, responses[..n]) +
      if actions[n].Command? && RequestIn(actions[n].x).Some?
      then Acked(RequestIn(actions[n].x).value, responses[n])
      else {}
  }

  lemma {:induction false} AckedAgree(h: History, actions: seq<Action>, responses: Responses, v: View)
    requires Faithful(h, actions, responses, v) && v.full
    ensures AckedBy(actions, responses) == AckedIn(h)
  {
    if h != [] {
      AckedAgree(h[..|h| - 1], actions, responses[..|h| - 1], v);
    }
  }

  lemma {:induction false} FaithfulPrefix(h: History, actions: seq<Action>, responses: Responses, v: View,
                                          i: nat)
    requires Faithful(h, actions, responses, v) && i <= |h|
    ensures Faithful(h[..i], actions, responses[..i], v)
  {
    if i < |h| {
      FaithfulPrefix(h[..|h| - 1], actions, responses[..|h| - 1], v, i);
      assert h[..|h| - 1][..i] == h[..i] && responses[..|h| - 1][..i] == responses[..i];
    } else {
      assert h[..i] == h && responses[..i] == responses;
    }
  }

  /** No command changes the number of blocks, so every command was judged by the same capacity. */
  lemma {:induction false} SameGeometry(h: History, actions: seq<Action>, responses: Responses, v: View,
                                        was: seq<Block>, now: seq<Block>, i: nat)
    requires Faithful(h, actions, responses, v) && Leads(h, was, now)
    ensures |now| == |was|
    ensures i < |h| && h[i].Some? ==> |h[i].value.before| == |was|
    decreases |h|
  {
    if h != [] {
      var front, last := h[..|h| - 1], h[|h| - 1];
      var earlier := if last.None? then now else last.value.before;
      SameGeometry(front, actions, responses[..|h| - 1], v, was, earlier, i);
      if last.Some? {
        EffectKeepsCount(last.value, true);
      }
    }
  }

  /** What the link says of a command puts it on record. */
  lemma DoneIsGenuine(t: Turn, a: Action, was: Situation, now: Situation, v: View)
    requires a.Command? && RequestIn(a.x) == Some(t.req) && Done(t, t.req, a.x.payload, a.x.payloadOk, was, now)
    requires Serviced(t, a.x.payloadOk, was, now) && now.TagsFresh() && 0 < |now.medium| <= U32
    requires (now.cap == Capacity(0, 0) || now.Current()) && v.size == now.size && (v.known ==> was.cap.Known())
    ensures Genuine(t, a, t.response, v)
  {
    EffectKeepsCount(t, true);
  }

  /** What a command comes to for the open drive, if its record is read with `known`. */
  ghost predicate Acted(a: Action, response: Option<Response>, o: Option<Turn>, known: bool,
                        was: Situation, now: Situation)
    requires a.Command?
  {
    && now.working && was.spent.commands <= now.spent.commands
    && (was.cap.Known() && now.TagsFresh() ==> now.cap == was.cap)
    && (o.Some? <==> RequestIn(a.x).Some?)
    && (if o.None? then response.None? && now.medium == was.medium
        else o.value.before == was.medium && o.value.after == now.medium)
    && (o.Some? && now.open && now.TagsFresh() ==> Genuine(o.value, a, response, View(false, known, now.size)))
  }

  /** The same of one that was carried out; with a drive open, the medium is one, and what is cached is its geometry or
      nothing. */
  lemma DoneIsActed(t: Turn, a: Action, known: bool, was: Situation, now: Situation)
    requires a.Command? && RequestIn(a.x) == Some(t.req) && Done(t, t.req, a.x.payload, a.x.payloadOk, was, now)
    requires Serviced(t, a.x.payloadOk, was, now)
    requires now.open ==> 0 < |now.medium| <= U32
    requires now.open && now.TagsFresh() ==> now.cap == Capacity(0, 0) || now.Current()
    requires known && now.TagsFresh() ==> was.cap.Known()
    ensures Acted(a, t.response, Some(t), known, was, now)
  {
    if now.open && now.TagsFresh() {
      DoneIsGenuine(t, a, was, now, View(false, known, now.size));
    }
  }

  lemma GenuineIsAboutJob(job: Job, t: Turn, a: Action, response: Option<Response>, v: View)
    requires job.Fair() && Genuine(t, a, response, v) && v.size == job.bs && |t.before| == job.bc + 1
    requires Honest(job, t.req, t.payload)
    ensures AboutJob(job, Some(t))
  {
  }

  lemma RecordIsAboutJob(job: Job, h: History, actions: seq<Action>, responses: Responses, v: View,
                         was: seq<Block>, now: seq<Block>)
    requires job.Fair() && |was| == job.bc + 1 && SendsOnly(job, actions)
    requires Leads(h, was, now) && Faithful(h, actions, responses, v) && v.full && v.size == job.bs
    ensures forall i :: 0 <= i < |h| ==> AboutJob(job, h[i])
  {
    forall i | 0 <= i < |h| && h[i].Some? ensures AboutJob(job, h[i]) {
      FaithfulAt(h, actions, responses, v, i);
      SameGeometry(h, actions, responses, v, was, now, i);
      GenuineIsAboutJob(job, h[i].value, actions[i], responses[i], v);
    }
  }

  /** From the responses alone: once each chunk's Write has had an ESP_OK, the range holds the data and
      nothing else has changed; and a Read of a chunk after that chunk's ESP_OK brings its data. */
  lemma MasterIsRight(job: Job, h: History, actions: seq<Action>, responses: Responses, v: View,
                      was: seq<Block>, now: seq<Block>)
    requires job.Fair() && |was| == job.bc + 1 && SendsOnly(job, actions)
    requires Leads(h, was, now) && Faithful(h, actions, responses, v) && v.full && v.size == job.bs
    ensures (forall k: nat :: k < job.Count() ==> k in AckedBy(actions, responses)) ==>
              now == Overwrite(was, job.lba, job.n, job.data, job.bs)
    ensures forall i :: 0 <= i < |h| && actions[i].Command? && RequestIn(actions[i].x).Some? ==>
              Returns(job, RequestIn(actions[i].x).value, responses[i], AckedBy(actions, responses[..i]))
  {
    RecordIsAboutJob(job, h, actions, responses, v, was, now);
    Conversation(job, h, was, now);
    AckedAgree(h, actions, responses, v);
    if forall k: nat :: k < job.Count() ==> k in AckedBy(actions, responses) {
      StoredOnceAcknowledged(job, h, was, now);
    }
    forall i | 0 <= i < |h| && actions[i].Command? && RequestIn(actions[i].x).Some?
      ensures Returns(job, RequestIn(actions[i].x).value, responses[i], AckedBy(actions, responses[..i]))
    {
      FaithfulAt(h, actions, responses, v, i);
      FaithfulPrefix(h, actions, responses, v, i);
      AckedAgree(h[..i], actions, responses[..i], v);
    }
  }

  /** Read `at[k]` is for chunk `k` of the job, after that chunk's ESP_OK, and has had an ESP_OK itself. */
  ghost predicate ReadsBack(job: Job, actions: seq<Action>, responses: Responses, at: seq<nat>)
    requires job.Fair() && |responses| == |actions|
  {
    && |at| == job.Count()
    && forall k :: 0 <= k < |at| ==> at[k] < |actions| && FetchesAgain(job, k, actions, responses, at[k])
  }

  predicate FetchesAgain(job: Job, k: nat, actions: seq<Action>, responses: Responses, i: nat)
    requires i < |actions| == |responses|
  {
    && actions[i].Command? && RequestIn(actions[i].x).Some?
    && var req := RequestIn(actions[i].x).value;
       && req.CmdEnum() == Some(Read) && req.arg0 == job.lba && req.arg1 == job.n && req.reserved == k
       && responses[i].Some? && responses[i].value.status == ESP_OK && k in AckedBy(actions, responses[..i])
  }

  /** The bodies of those responses, without their trailers, joined. */
  function Bodies(responses: Responses, at: seq<nat>): (r: seq<seq<byte>>)
    requires forall k :: 0 <= k < |at| ==> at[k] < |responses| && responses[at[k]].Some?
    ensures |r| == |at|
  {
    seq(|at|, k requires 0 <= k < |at| => responses[at[k]].value.body)
  }

  /** Reading back all chunks gives the data. */
  lemma ReadBackIsData(job: Job, actions: seq<Action>, responses: Responses, at: seq<nat>)
    requires job.Fair() && |responses| == |actions| && ReadsBack(job, actions, responses, at)
    requires forall i :: 0 <= i < |actions| && actions[i].Command? && RequestIn(actions[i].x).Some? ==>
               Returns(job, RequestIn(actions[i].x).value, responses[i], AckedBy(actions, responses[..i]))
    ensures Joined(Bodies(responses, at)) == job.data
  {
    forall k | 0 <= k < |at| ensures Bodies(responses, at)[k] == job.Piece(k) + Crc.Trailer(job.Piece(k)) {
      assert FetchesAgain(job, k, actions, responses, at[k]);
    }
    BodiesAreData(job, Bodies(responses, at));
  }

  /** Response `k` says that chunk `k` has been written, and its length. */
  ghost predicate AllGood(job: Job, responses: Responses)
    requires job.Fair()
  {
    forall k :: 0 <= k < |responses| ==> Acknowledges(responses[k], |job.Piece(k)|)
  }

  lemma AllGoodStep(job: Job, responses: Responses, response: Option<Response>)
    requires job.Fair() && AllGood(job, responses) && Acknowledges(response, |job.Piece(|responses|)|)
    ensures AllGood(job, responses + [response])
  {
  }

  /** All that the master can conclude about one job: once each chunk's Write has had an ESP_OK, the range holds the
      data and nothing else has changed; a Read of a chunk after that chunk's ESP_OK brings its data, and the bodies
      of such Reads of all chunks are the data. */
  ghost predicate Concludes(job: Job, actions: seq<Action>, responses: Responses, was: seq<Block>, now: seq<Block>)
    requires job.Fair() && |responses| == |actions|
  {
    && ((forall k: nat :: k < job.Count() ==> k in AckedBy(actions, responses)) ==>
          now == Overwrite(was, job.lba, job.n, job.data, job.bs))
    && (forall i :: 0 <= i < |actions| && actions[i].Command? && RequestIn(actions[i].x).Some? ==>
          Returns(job, RequestIn(actions[i].x).value, responses[i], AckedBy(actions, responses[..i])))
    && (forall at :: ReadsBack(job, actions, responses, at) ==> Joined(Bodies(responses, at)) == job.data)
  }

  lemma MasterConcludes(job: Job, h: History, actions: seq<Action>, responses: Responses, v: View,
                        was: seq<Block>, now: seq<Block>)
    requires job.Fair() && |was| == job.bc + 1 && SendsOnly(job, actions) && |h| == |actions|
    requires Leads(h, was, now) && Faithful(h, actions, responses, v) && v.full && v.size == job.bs
    ensures Concludes(job, actions, responses, was, now)
  {
    MasterIsRight(job, h, actions, responses, v, was, now);
    forall at | ReadsBack(job, actions, responses, at) ensures Joined(Bodies(responses, at)) == job.data {
      ReadBackIsData(job, actions, responses, at);
    }
  }

  // ----- What goes over the wire -----

  /** What one action puts on the wire. */
  function Uttered(a: Action, response: Option<Response>): seq<Mark> {
    if a.Command? then Exchanged(RequestIn(a.x), response.Some?) else []
  }

  function Spoken(actions: seq<Action>, responses: Responses): seq<Mark>
    requires |responses| <= |actions|
  {
    if responses == [] then []
    else
      var n := |responses| - 1;
      Spoken(actions, responses[..n]) + Uttered(actions[n], responses[n])
  }

  lemma SpokenStep(before: seq<Mark>, actions: seq<Action>, responses: Responses, response: Option<Response>)
    requires |responses| < |actions|
    ensures before + Spoken(actions, responses + [response])
         == before + Spoken(actions, responses) + Uttered(actions[|responses|], response)
  {
    assert (responses + [response])[..|responses|] == responses;
    Grouping(before, Spoken(actions, responses), Uttered(actions[|responses|], response));
  }

  /** Responses are only given to requests. */
  ghost predicate Fitting(actions: seq<Action>, responses: Responses) {
    && |responses| <= |actions|
    && forall i :: 0 <= i < |responses| && responses[i].Some? ==> actions[i].Command? && RequestIn(actions[i].x).Some?
  }

  lemma FittingStep(actions: seq<Action>, responses: Responses, response: Option<Response>)
    requires Fitting(actions, responses) && |responses| < |actions|
    requires response.Some? ==> actions[|responses|].Command? && RequestIn(actions[|responses|].x).Some?
    ensures Fitting(actions, responses + [response])
  {
    var all := responses + [response];
    forall i | 0 <= i < |all| && all[i].Some? ensures actions[i].Command? && RequestIn(actions[i].x).Some? {
      assert i < |responses| ==> all[i] == responses[i];
    }
  }

  /** The commands among the first `n` actions, as the slave sees them, and the responses to commands. */
  function Requested(actions: seq<Action>, n: nat): Requests
    requires n <= |actions|
  {
    if n == 0 then []
    else Requested(actions, n - 1) + if actions[n - 1].Command? then [RequestIn(actions[n - 1].x)] else []
  }

  function Responded(actions: seq<Action>, responses: Responses): Responses
    requires |responses| <= |actions|
  {
    if responses == [] then []
    else
      var n := |responses| - 1;
      Responded(actions, responses[..n]) + if actions[n].Command? then [responses[n]] else []
  }

  /** Every request among the actions has had a response. */
  ghost predicate AllAnswered(actions: seq<Action>, responses: Responses)
    requires |responses| <= |actions|
  {
    forall i :: 0 <= i < |responses| && actions[i].Command? && RequestIn(actions[i].x).Some? ==> responses[i].Some?
  }

  /** Events and polls leave no mark on the wire: what is spoken is the dialogue of the commands alone. */
  lemma {:induction false} SpokenIsDialogue(actions: seq<Action>, responses: Responses)
    requires Fitting(actions, responses)
    ensures var reqs, rs := Requested(actions, |responses|), Responded(actions, responses);
            && |rs| == |reqs| && Proper(reqs, rs) && Spoken(actions, responses) == Dialogue(reqs, rs)
            && (Unanswered(reqs, rs) == 0 <==> AllAnswered(actions, responses))
    decreases |responses|
  {
    if responses != [] {
      var n := |responses| - 1;
      var front := responses[..n];
      SpokenIsDialogue(actions, front);
      var reqs, rs := Requested(actions, n), Responded(actions, front);
      AllAnsweredStep(actions, responses, n);
      if actions[n].Command? {
        OneMoreExchange(reqs, rs, RequestIn(actions[n].x), responses[n]);
        assert Requested(actions, n + 1) == reqs + [RequestIn(actions[n].x)];
        assert Responded(actions, responses) == rs + [responses[n]];
      } else {
        assert Requested(actions, n + 1) == reqs && Responded(actions, responses) == rs;
        assert Spoken(actions, responses) == Spoken(actions, front);
      }
    }
  }

  lemma AllAnsweredStep(actions: seq<Action>, responses: Responses, n: nat)
    requires |responses| == n + 1 <= |actions|
    ensures AllAnswered(actions, responses)
       <==> AllAnswered(actions, responses[..n])
            && (actions[n].Command? && RequestIn(actions[n].x).Some? ==> responses[n].Some?)
  {
    assert forall i :: 0 <= i < n ==> responses[..n][i] == responses[i];
  }

  /** The transfers the headers alone call for. */
  function Scheduled(actions: seq<Action>): seq<Mark> {
    Schedule(Requested(actions, |actions|), |Requested(actions, |actions|)|)
  }

  /** In any run, the transfers are those the headers alone call for exactly when every request was answered. */
  lemma PhaseOfRun(before: seq<Mark>, actions: seq<Action>, responses: Responses)
    requires Fitting(actions, responses) && |responses| == |actions|
    ensures before + Spoken(actions, responses) == before + Scheduled(actions) <==> AllAnswered(actions, responses)
    ensures LineAfter(before) == LineLow ==> LineAfter(before + Spoken(actions, responses)) == LineLow
  {
    var reqs, rs := Requested(actions, |actions|), Responded(actions, responses);
    SpokenIsDialogue(actions, responses);
    InPhaseIffNothingLost(reqs, rs);
    SameTail(before, Dialogue(reqs, rs), Schedule(reqs, |reqs|));
    if LineAfter(before) == LineLow {
      DialogueKeepsLow(before, reqs, rs);
    }
  }

  /** No Write that this capacity accepts loses its payload. */
  predicate NoPayloadLost(actions: seq<Action>, cap: Capacity) {
    forall i :: 0 <= i < |actions| && actions[i].Command? ==>
      !LosesPayloadBy(RequestIn(actions[i].x), actions[i].x.payloadOk, cap)
  }

  /** Exactly the requests get a response that are not Writes accepted by this capacity whose payload is lost. */
  ghost predicate AnsweredBy(actions: seq<Action>, responses: Responses, cap: Capacity)
    requires |responses| <= |actions|
  {
    forall i :: 0 <= i < |responses| && actions[i].Command? ==>
      (responses[i].Some? <==>
        RequestIn(actions[i].x).Some? && !LosesPayloadBy(RequestIn(actions[i].x), actions[i].x.payloadOk, cap))
  }

  /** With a known capacity, the actions alone say which requests are answered. */
  lemma AnsweredByGeometry(h: History, actions: seq<Action>, responses: Responses, v: View,
                           was: seq<Block>, now: seq<Block>, cap: Capacity)
    requires Leads(h, was, now) && Faithful(h, actions, responses, v) && v.full && v.known
    requires Fitting(actions, responses) && |h| == |actions| && cap.bs == v.size && cap.bc == |was| - 1
    ensures AnsweredBy(actions, responses, cap)
    ensures AllAnswered(actions, responses) <==> NoPayloadLost(actions, cap)
  {
    forall i | 0 <= i < |responses| && actions[i].Command?
      ensures responses[i].Some? <==>
                RequestIn(actions[i].x).Some? && !LosesPayloadBy(RequestIn(actions[i].x), actions[i].x.payloadOk, cap)
    {
      FaithfulAt(h, actions, responses, v, i);
      if h[i].Some? {
        SameGeometry(h, actions, responses, v, was, now, i);
        GenuineIsAnswered(h[i].value, actions[i], responses[i], v, cap);
      }
    }
    AllAnsweredIff(actions, responses, cap);
  }

  lemma GenuineIsAnswered(t: Turn, a: Action, response: Option<Response>, v: View, cap: Capacity)
    requires Genuine(t, a, response, v) && v.known && cap.bs == v.size && cap.bc == |t.before| - 1
    ensures response.None? <==> LosesPayloadBy(RequestIn(a.x), a.x.payloadOk, cap)
  {
    assert t.asked == Asked(t.req, cap.bs, cap.bc);
  }

  lemma AllAnsweredIff(actions: seq<Action>, responses: Responses, cap: Capacity)
    requires |responses| == |actions| && AnsweredBy(actions, responses, cap)
    ensures AllAnswered(actions, responses) <==> NoPayloadLost(actions, cap)
  {
    if AllAnswered(actions, responses) {
      forall i | 0 <= i < |actions| && actions[i].Command?
        ensures !LosesPayloadBy(RequestIn(actions[i].x), actions[i].x.payloadOk, cap)
      {
        assert RequestIn(actions[i].x).Some? ==> responses[i].Some?;
      }
    }
  }

  // ----- The state on the bus -----

  /** All polls so far were over by then. */
  ghost predicate Timely(polls: seq<Poll>, last: nat) {
    polls != [] ==> polls[|polls| - 1].over <= last
  }

  /** No power cycle since poll `k`. */
  ghost predicate NoCycleSince(polls: seq<Poll>, k: nat) {
    forall j :: k <= j < |polls| ==> !polls[j].cycled
  }

  predicate Later(was: BusState, now: BusState) {
    was.polls <= now.polls && was.issued <= now.issued
  }

  /** Polls and commands do not close an open drive, do not forget a known capacity until tags wrap around, and do
      not get a stuck driver going again. */
  ghost predicate Steady(was: BusState, now: BusState) {
    && (was.handle != null ==> now.handle == was.handle && now.drive == was.drive)
    && (was.cap.Known() && now.issued < U32 ==> now.cap == was.cap)
    && (was.Stuck() ==> now.Stuck() && now.installs == was.installs && NoCycleSince(now.polls, |was.polls|))
  }

  /** `n` CONNECTED events have come, and no more installs than three for each of them have been made or are
      still to be made without another one. */
  predicate Paid(n: nat, was: BusState, now: BusState) {
    && now.connects == was.connects + n
    && now.installs + now.retriesLeft <= was.installs + was.retriesLeft + Allowance(n)
  }

  lemma GoOn(n: nat, m: nat, was: BusState, mid: BusState, now: BusState)
    requires Later(was, mid) && Later(mid, now) && Paid(n, was, mid) && Paid(m, mid, now)
    ensures Later(was, now) && Paid(n + m, was, now)
    ensures Steady(was, mid) && Steady(mid, now) ==> Steady(was, now)
  {
    if Steady(was, mid) && Steady(mid, now) && was.Stuck() {
      forall j | |was.polls| <= j < |now.polls| ensures !now.polls[j].cycled {
        assert j < |mid.polls| ==> now.polls[j] == mid.polls[j];
      }
    }
  }

  /** A poll adds itself to the history: it was quiet if nothing was open or pending after its attempt to install, and
      then cycled the power if that was due. Without an attempt it changes nothing else; an attempt ends in one of
      three ways. */
  ghost predicate PollsOnce(a: Action, was: BusState, now: BusState)
    requires a.Polled?
  {
    && now.polls
    == was.polls + [Poll(a.at, a.measured, a.over, now.Deserted(),
                         now.Deserted() && Due(was.polls, |was.polls|, a.measured))]
    && if was.pendingAddr < 0 || was.retriesLeft <= 0 then now == was.(polls := now.polls)
       else
         && now.installs == was.installs + 1 && now.connects == was.connects
         && (|| (now.handle != null && now.pendingAddr == -1 && now.retriesLeft == 0)
             || (now.handle == null && now.pendingAddr == -1 && now.retriesLeft == 0)
             || (now.handle == null && now.pendingAddr == was.pendingAddr && now.retriesLeft == was.retriesLeft - 1))
  }

  /** What each action makes of the state on the bus. The loss of the open drive closes it; that of another one does so
      too if it is on the list of devices, and changes nothing otherwise. */
  ghost predicate Moves(a: Action, was: BusState, now: BusState) {
    match a
    case Connected(addr) => now == was.Joined(addr)
    case Gone(drive, _) => now == was.Left() || (now == was && was.drive != drive)
    case Polled(_, _, _, _, _) => PollsOnce(a, was, now)
    case Command(_) => now == was.(cap := now.cap, issued := now.issued)
  }

  /** If nothing was open or pending, that is still so, and all polls in between were quiet. */
  ghost predicate StaysDeserted(was: BusState, now: BusState) {
    was.Deserted() ==> now.Deserted() && forall j :: |was.polls| <= j < |now.polls| ==> now.polls[j].quiet
  }

  lemma StillDeserted(a: Action, was: BusState, mid: BusState, now: BusState)
    requires StaysDeserted(was, mid) && Moves(a, mid, now) && !a.Connected? && Later(was, mid)
    ensures StaysDeserted(was, now)
  {
  }

  /** The times of the polls among the first `n` actions. */
  function TicksIn(actions: seq<Action>, n: nat): seq<Tick>
    requires n <= |actions|
  {
    if n == 0 then []
    else
      var a := actions[n - 1];
      TicksIn(actions, n - 1) + if a.Polled? then [Tick(a.at, a.measured, a.over)] else []
  }

  lemma TicksOn(actions: seq<Action>, i: nat, was: BusState, mid: BusState, now: BusState)
    requires i < |actions| && Moves(actions[i], mid, now)
    requires Ticks(mid.polls) == Ticks(was.polls) + TicksIn(actions, i)
    ensures Ticks(now.polls) == Ticks(was.polls) + TicksIn(actions, i + 1)
  {
    var a := actions[i];
    if a.Polled? {
      assert Ticks(now.polls) == Ticks(mid.polls) + [Tick(a.at, a.measured, a.over)];
    }
  }

  // ----- One action, and a whole run -----

  /** All that can be seen at a time: the state on the bus, the medium of one drive, and the wire. */
  datatype Sight = Sight(bus: BusState, blocks: seq<Block>, marks: seq<Mark>)

  /** What one action makes of the state on the bus. */
  ghost predicate StepOnBus(a: Action, was: BusState, now: BusState) {
    && Moves(a, was, now) && Later(was, now) && Paid(if a.Connected? then 1 else 0, was, now)
    && (a.Polled? || a.Command? ==> Steady(was, now))
  }

  /** What goes on the record about the drive. */
  ghost predicate StepOnRecord(a: Action, response: Option<Response>, o: Option<Turn>, v: View,
                               was: Sight, now: Sight) {
    && (response.Some? ==> a.Command? && RequestIn(a.x).Some?)
    && (if o.None? then now.blocks == was.blocks else o.value.before == was.blocks && o.value.after == now.blocks)
    && (o.Some? && now.bus.issued < U32 ==> Genuine(o.value, a, response, v))
    && (v.full && o.None? && a.Command? ==> RequestIn(a.x).None?)
  }

  /** What one action comes to, with its response. */
  ghost predicate StepOf(a: Action, response: Option<Response>, o: Option<Turn>, v: View, was: Sight, now: Sight) {
    && StepOnBus(a, was.bus, now.bus) && (a.Polled? ==> Timely(now.bus.polls, a.over))
    && StepOnRecord(a, response, o, v, was, now)
    && now.marks == was.marks + Uttered(a, response)
  }

  /** A command changes no more on the bus than the cached capacity and the number of commands. */
  lemma CommandStep(a: Action, response: Option<Response>, o: Option<Turn>, v: View, was: Sight, now: Sight)
    requires a.Command? && (response.Some? ==> RequestIn(a.x).Some?)
    requires now.bus == was.bus.(cap := now.bus.cap, issued := now.bus.issued) && was.bus.issued <= now.bus.issued
    requires was.bus.cap.Known() && now.bus.issued < U32 ==> now.bus.cap == was.bus.cap
    requires if o.None? then now.blocks == was.blocks else o.value.before == was.blocks && o.value.after == now.blocks
    requires o.Some? && now.bus.issued < U32 ==> Genuine(o.value, a, response, v)
    requires v.full && o.None? ==> RequestIn(a.x).None?
    requires now.marks == was.marks + Uttered(a, response)
    ensures StepOf(a, response, o, v, was, now)
  {
  }

  /** On the bus: every CONNECTED event pays for three installs at most; without events, an open drive stays open and
      a stuck driver stuck; without a CONNECTED event nothing comes on an empty bus; and the history has all polls. */
  ghost predicate RunOnBus(actions: seq<Action>, n: nat, was: BusState, now: BusState)
    requires n <= |actions|
  {
    && Later(was, now) && Paid(Connects(actions, n), was, now)
    && (Undisturbed(actions) ==> Steady(was, now))
    && (NoneConnected(actions) ==> StaysDeserted(was, now))
    && Ticks(now.polls) == Ticks(was.polls) + TicksIn(actions, n)
  }

  /** The medium of the drive has changed by its recorded commands alone. */
  ghost predicate RunOnRecord(actions: seq<Action>, responses: Responses, h: History, v: View,
                              was: seq<Block>, now: Sight) {
    && |h| == |responses| && Fitting(actions, responses)
    && Leads(h, was, now.blocks) && (now.bus.issued < U32 ==> Faithful(h, actions, responses, v))
  }

  /** What the first actions of a run come to, as many as there are responses, if it is now time `last`; the wire has
      carried what the commands and responses call for. */
  ghost predicate RunOf(actions: seq<Action>, responses: Responses, h: History, start: nat, last: nat, v: View,
                        was: Sight, now: Sight) {
    && RunOnRecord(actions, responses, h, v, was.blocks, now) && RunOnBus(actions, |responses|, was.bus, now.bus)
    && Timely(now.bus.polls, last) && EndTime(actions, |responses|, last) == EndTime(actions, 0, start)
    && now.marks == was.marks + Spoken(actions, responses)
  }

  lemma RunOfNothing(actions: seq<Action>, start: nat, v: View, now: Sight)
    requires Timely(now.bus.polls, start)
    ensures RunOf(actions, [], [], start, start, v, now, now)
  {
    assert now.marks + [] == now.marks && Ticks(now.bus.polls) + [] == Ticks(now.bus.polls);
  }

  lemma RunOfStep(actions: seq<Action>, responses: Responses, h: History, start: nat, last: nat, v: View,
                  was: Sight, mid: Sight, now: Sight, response: Option<Response>, o: Option<Turn>)
    requires RunOf(actions, responses, h, start, last, v, was, mid) && |responses| < |actions|
    requires StepOf(actions[|responses|], response, o, v, mid, now) && OnTime(actions[|responses|], last)
    ensures RunOf(actions, responses + [response], h + [o], start, TimeAfter(actions[|responses|], last), v, was, now)
  {
    var n, more := |responses|, responses + [response];
    assert |more| == n + 1;
    TimeStep(actions, n, start, last, mid.bus, now.bus);
    assert RunOnBus(actions, |more|, was.bus, now.bus) by {
      BusStep(actions, n, was.bus, mid.bus, now.bus);
    }
    assert RunOnRecord(actions, more, h + [o], v, was.blocks, now) by {
      RecordStep(actions, responses, h, v, was.blocks, mid, now, response, o);
    }
    assert now.marks == was.marks + Spoken(actions, more) by {
      SpokenStep(was.marks, actions, responses, response);
    }
  }

  lemma TimeStep(actions: seq<Action>, i: nat, start: nat, last: nat, mid: BusState, now: BusState)
    requires i < |actions| && OnTime(actions[i], last) && Timely(mid.polls, last)
    requires Moves(actions[i], mid, now) && (actions[i].Polled? ==> Timely(now.polls, actions[i].over))
    requires EndTime(actions, i, last) == EndTime(actions, 0, start)
    ensures Timely(now.polls, TimeAfter(actions[i], last))
    ensures EndTime(actions, i + 1, TimeAfter(actions[i], last)) == EndTime(actions, 0, start)
  {
  }

  lemma BusStep(actions: seq<Action>, i: nat, was: BusState, mid: BusState, now: BusState)
    requires i < |actions| && RunOnBus(actions, i, was, mid) && StepOnBus(actions[i], mid, now)
    ensures RunOnBus(actions, i + 1, was, now)
  {
    GoOn(Connects(actions, i), if actions[i].Connected? then 1 else 0, was, mid, now);
    TicksOn(actions, i, was, mid, now);
    if NoneConnected(actions) {
      StillDeserted(actions[i], was, mid, now);
    }
  }

  lemma RecordStep(actions: seq<Action>, responses: Responses, h: History, v: View, was: seq<Block>,
                   mid: Sight, now: Sight, response: Option<Response>, o: Option<Turn>)
    requires |responses| < |actions| && RunOnRecord(actions, responses, h, v, was, mid)
    requires mid.bus.issued <= now.bus.issued
    requires StepOnRecord(actions[|responses|], response, o, v, mid, now)
    ensures RunOnRecord(actions, responses + [response], h + [o], v, was, now)
  {
    LeadsOn(h, o, was, mid.blocks, now.blocks);
    FittingStep(actions, responses, response);
    if now.bus.issued < U32 {
      FaithfulStep(h, actions, responses, v, o, response);
    }
  }

  /** A drive that was open, with a known capacity, still is. */
  lemma StillOpen(actions: seq<Action>, responses: Responses, h: History, start: nat, last: nat, v: View,
                  was: Sight, now: Sight)
    requires RunOf(actions, responses, h, start, last, v, was, now)
    requires v.full ==> Undisturbed(actions) && was.bus.handle != null
    requires v.known ==> v.full && was.bus.cap.Known()
    ensures v.full ==> now.bus.drive == was.bus.drive
    ensures v.known && now.bus.issued < U32 ==> now.bus.cap.Known()
  {
  }

  /** Without CONNECTED events, only the retries that were left can have been spent. */
  lemma NothingPaid(actions: seq<Action>, responses: Responses, h: History, start: nat, last: nat, v: View,
                    was: Sight, now: Sight)
    requires RunOf(actions, responses, h, start, last, v, was, now) && NoneConnected(actions)
    ensures Paid(0, was.bus, now.bus)
  {
    NoConnects(actions, |responses|);
  }

  /** The run is over. */
  ghost predicate WholeRun(actions: seq<Action>, responses: Responses, h: History, start: nat, v: View,
                           was: Sight, now: Sight)
    requires InTime(actions, start)
  {
    |responses| == |actions| && RunOf(actions, responses, h, start, EndTime(actions, 0, start).value, v, was, now)
  }

  /** From power-up on, with the capacity known or not: phase, answers, and the conclusions about one job. */
  lemma PhaseOfWhole(actions: seq<Action>, responses: Responses, h: History, start: nat, v: View,
                     was: Sight, now: Sight)
    requires InTime(actions, start) && WholeRun(actions, responses, h, start, v, was, now)
    ensures now.marks == was.marks + Scheduled(actions) <==> AllAnswered(actions, responses)
    ensures LineAfter(was.marks) == LineLow ==> LineAfter(now.marks) == LineLow
  {
    PhaseOfRun(was.marks, actions, responses);
  }

  /** With a known capacity, the commands alone say which of them are answered, and master and slave are in phase
      exactly if no accepted Write loses its payload. */
  ghost predicate AnsweredInPhase(actions: seq<Action>, responses: Responses, cap: Capacity,
                                  before: seq<Mark>, after: seq<Mark>)
    requires |responses| <= |actions|
  {
    && AnsweredBy(actions, responses, cap)
    && (after == before + Scheduled(actions) <==> NoPayloadLost(actions, cap))
  }

  lemma KnownInPhase(actions: seq<Action>, responses: Responses, h: History, start: nat, v: View,
                     was: Sight, now: Sight)
    requires InTime(actions, start) && WholeRun(actions, responses, h, start, v, was, now)
    requires v.full && v.known && now.bus.issued < U32
    requires was.bus.cap.bs == v.size && was.bus.cap.bc == |was.blocks| - 1
    ensures AnsweredInPhase(actions, responses, was.bus.cap, was.marks, now.marks)
  {
    PhaseOfWhole(actions, responses, h, start, v, was, now);
    AnsweredByGeometry(h, actions, responses, v, was.blocks, now.blocks, was.bus.cap);
  }

  // ----- Attempts to install -----

  /** What the attempts to install after a CONNECTED event for `addr` leave pending: as long as all of them
      came back with INVALID_STATE, the address, with what is left of three retries; otherwise nothing. */
  predicate PendingAfter(addr: byte, results: seq<Option<EspErr>>, pending: int, retries: int) {
    var n := Min(|results|, RETRY_COUNT);
    if AllRefused(results[..n]) then pending == addr && retries == RETRY_COUNT - n else pending == -1 && retries == 0
  }

  predicate AllRefused(results: seq<Option<EspErr>>) {
    forall i :: 0 <= i < |results| ==> results[i] == Some(ESP_ERR_INVALID_STATE)
  }

  /** What is known of the result of a poll from the poll itself and the results `earlier` since CONNECTED: there
      is an attempt exactly if all three or fewer before it came back with INVALID_STATE; its result is the first
      error of the library, if there is one; and otherwise INVALID_STATE can only come from the drive. */
  ghost predicate ResultOf(a: Action, earlier: seq<Option<EspErr>>, res: Option<EspErr>)
    requires a.Polled?
  {
    && (res.Some? <==> |earlier| < RETRY_COUNT && AllRefused(earlier))
    && (res.Some? && !a.Feasible() ==> res.value == a.Obstacle())
    && (a.Feasible() && a.found.Spares(ESP_ERR_INVALID_STATE) ==> res != Some(ESP_ERR_INVALID_STATE))
  }

  ghost predicate ResultsOf(polls: seq<Action>, results: seq<Option<EspErr>>) {
    && |results| <= |polls|
    && forall i :: 0 <= i < |results| ==> polls[i].Polled? && ResultOf(polls[i], results[..i], results[i])
  }

  lemma ResultsStep(polls: seq<Action>, results: seq<Option<EspErr>>, res: Option<EspErr>)
    requires ResultsOf(polls, results) && |results| < |polls|
    requires polls[|results|].Polled? && ResultOf(polls[|results|], results, res)
    ensures ResultsOf(polls, results + [res])
  {
    var all := results + [res];
    forall i | 0 <= i < |all| ensures polls[i].Polled? && ResultOf(polls[i], all[..i], all[i]) {
      assert all[..i] == results[..i] && results[..|results|] == results;
    }
  }

  /** Polls that are bound to stick if all three do, and polls that may. */
  predicate Sticks(a: Action)
    requires a.Polled?
  {
    a.Obstacle() == ESP_ERR_INVALID_STATE
  }

  ghost predicate MayStick(a: Action)
    requires a.Polled?
  {
    Sticks(a) || (a.Feasible() && !a.found.Spares(ESP_ERR_INVALID_STATE))
  }

  lemma {:induction false} StickIfAll(polls: seq<Action>, results: seq<Option<EspErr>>, n: nat)
    requires ResultsOf(polls, results) && n <= |results| && n <= RETRY_COUNT
    requires forall i :: 0 <= i < n ==> polls[i].Polled? && Sticks(polls[i])
    ensures AllRefused(results[..n])
  {
    if n > 0 {
      StickIfAll(polls, results, n - 1);
      assert ResultOf(polls[n - 1], results[..n - 1], results[n - 1]);
      assert results[..n] == results[..n - 1] + [results[n - 1]];
    }
  }

  /** From the polls alone: three that are bound to stick do, and nothing else can than three that may. */
  lemma StuckByPolls(polls: seq<Action>, results: seq<Option<EspErr>>)
    requires ResultsOf(polls, results) && RETRY_COUNT <= |results|
    ensures (forall i :: 0 <= i < RETRY_COUNT ==> polls[i].Polled? && Sticks(polls[i])) ==>
              AllRefused(results[..RETRY_COUNT])
    ensures AllRefused(results[..RETRY_COUNT]) ==>
              forall i :: 0 <= i < RETRY_COUNT ==> polls[i].Polled? && MayStick(polls[i])
  {
    if forall i :: 0 <= i < RETRY_COUNT ==> polls[i].Polled? && Sticks(polls[i]) {
      StickIfAll(polls, results, RETRY_COUNT);
    }
    if AllRefused(results[..RETRY_COUNT]) {
      forall i | 0 <= i < RETRY_COUNT ensures polls[i].Polled? && MayStick(polls[i]) {
        assert results[i] == results[..RETRY_COUNT][i] && ResultOf(polls[i], results[..i], results[i]);
      }
    }
  }

  lemma AttemptIff(addr: byte, results: seq<Option<EspErr>>, pending: int, retries: int)
    requires PendingAfter(addr, results, pending, retries)
    ensures pending >= 0 && retries > 0 <==> |results| < RETRY_COUNT && AllRefused(results)
  {
    if |results| < RETRY_COUNT {
      assert results[..|results|] == results;
    }
  }

  lemma PendingStep(addr: byte, results: seq<Option<EspErr>>, pending: int, retries: int, res: Option<EspErr>)
    requires PendingAfter(addr, results, pending, retries)
    requires res.Some? <==> pending >= 0 && retries > 0
    ensures var (p, r) := AfterInstall(pending, retries, res); PendingAfter(addr, results + [res], p, r)
  {
    var n := Min(|results|, RETRY_COUNT);
    if |results| < RETRY_COUNT {
      assert (results + [res])[..n + 1] == results + [res] && results[..n] == results;
      if AllRefused(results + [res]) {
        assert (results + [res])[|results|] == res;
        assert AllRefused(results) by {
          forall i | 0 <= i < |results| ensures results[i] == Some(ESP_ERR_INVALID_STATE) {
            assert (results + [res])[i] == results[i];
          }
        }
      }
    } else {
      assert (results + [res])[..n] == results[..n];
    }
  }
}
