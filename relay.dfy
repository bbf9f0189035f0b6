/** The per-connection relay loop: each frame read from a user is forwarded
    as JSON to the user's current peer, if it has one, and then written back
    to the user itself; the first failing read or write ends the loop. */
module Relay {
  import opened Users

  /** One frame read from the connection: its websocket message type and
      bytes, what the JSON decoder made of it (`decoded`, possibly a zero or
      partly filled message, and whether decoding succeeded), and how the
      forward write to the peer and the echo write to the sender turn out. */
  datatype Frame = Frame(
    kind: int, data: seq<byte>,
    decoded: Message, decodeOk: bool,
    forwardOk: bool, echoOk: bool)

  /** One call to read from the connection. */
  datatype Read = Received(frame: Frame) | Failed

  /** Why the loop ended. */
  datatype Exit = ReadError | ForwardError | EchoError

  datatype Verdict = Continue | Stop(exit: Exit)

  datatype StepResult = StepResult(out: seq<Delivery>, verdict: Verdict)

  datatype RunResult = RunResult(out: seq<Delivery>, exit: Exit, frames: nat)

  /** The check that decides whether "invalid message format" is logged;
      it decides nothing else. */
  predicate WellFormed(f: Frame) {
    f.decodeOk && f.decoded.msgType != ""
  }

  /** The loop goes on after this frame: the forward, if any, and the echo
      were both written. */
  predicate Survives(peer: User?, f: Frame) {
    (peer == null || f.forwardOk) && f.echoOk
  }

  function Forward(peer: User, f: Frame): Delivery {
    Delivery(peer, Forwarded(f.decoded))
  }

  function Echo(self: User, f: Frame): Delivery {
    Delivery(self, Echoed(f.kind, f.data))
  }

  /** What the loop does with one frame read by `self` while `peer` is its
      partner (null when it has none). */
  function Step(self: User, peer: User?, f: Frame): StepResult {
    if peer != null && !f.forwardOk then StepResult([], Stop(ForwardError))
    else
      var forwarded := if peer == null then [] else [Forward(peer, f)];
      if !f.echoOk then StepResult(forwarded, Stop(EchoError))
      else StepResult(forwarded + [Echo(self, f)], Continue)
  }

  /** Per frame: with a peer, the frame is forwarded to it exactly when that
      write succeeds; without one, nothing but the echo is written; the echo
      is written exactly when the forward (if any) succeeded and the echo
      write itself succeeded; and that is also exactly when the loop goes on.
      A failed forward stops it with a forward error, a failed echo with an
      echo error. */
  lemma StepSpec(self: User, peer: User?, f: Frame)
    ensures var r := Step(self, peer, f);
            && (peer != null ==> (Forward(peer, f) in r.out <==> f.forwardOk))
            && (peer == null ==> forall d :: d in r.out ==> d == Echo(self, f))
            && (Echo(self, f) in r.out <==> Survives(peer, f))
            && (r.verdict == Continue <==> Survives(peer, f))
            && (r.verdict == Stop(ForwardError) <==> peer != null && !f.forwardOk)
            && (r.verdict == Stop(EchoError) <==> (peer == null || f.forwardOk) && !f.echoOk)
  {
  }

  /** The loop over the reads in `script`; when the script runs out the
      next read fails, as it does once the connection is closed. */
  function Run(self: User, peer: User?, script: seq<Read>): RunResult
    decreases |script|
  {
    if script == [] || script[0].Failed? then RunResult([], ReadError, 0)
    else
      var st := Step(self, peer, script[0].frame);
      if st.verdict.Stop? then RunResult(st.out, st.verdict.exit, 1)
      else
        var rest := Run(self, peer, script[1..]);
        RunResult(st.out + rest.out, rest.exit, 1 + rest.frames)
  }

  /** The relay loop itself: each pass reads the next frame from what is
      left of the script. */
  method RelayLoop(self: User, peer: User?, script: seq<Read>) returns (out: seq<Delivery>, exit: Exit)
    ensures out == Run(self, peer, script).out
    ensures exit == Run(self, peer, script).exit
  {
    out := [];
    var rest := script;
    while true
      invariant Run(self, peer, script).out == out + Run(self, peer, rest).out
      invariant Run(self, peer, script).exit == Run(self, peer, rest).exit
      decreases |rest|
    {
      if rest == [] || rest[0].Failed? {
        exit := ReadError;
        return;
      }
      var f := rest[0].frame;
      RunOnFrame(self, peer, rest, out);
      rest := rest[1..];
      if peer != null {
        if !f.forwardOk {
          exit := ForwardError;
          return;
        }
        out := out + [Forward(peer, f)];
      }
      if !f.echoOk {
        exit := EchoError;
        return;
      }
      out := out + [Echo(self, f)];
    }
  }

  /** How the run goes on when the next read yields a frame, stated after
      the output `done` written so far. */
  lemma RunOnFrame(self: User, peer: User?, script: seq<Read>, done: seq<Delivery>)
    requires script != [] && script[0].Received?
    ensures var f, t, rest := script[0].frame, Run(self, peer, script), Run(self, peer, script[1..]);
            && (peer != null && !f.forwardOk ==> done + t.out == done && t.exit == ForwardError)
            && (peer != null && f.forwardOk && !f.echoOk ==> done + t.out == done + [Forward(peer, f)] && t.exit == EchoError)
            && (peer == null && !f.echoOk ==> done + t.out == done && t.exit == EchoError)
            && (peer != null && Survives(peer, f) ==>
                  done + t.out == done + [Forward(peer, f)] + [Echo(self, f)] + rest.out && t.exit == rest.exit)
            && (peer == null && Survives(peer, f) ==>
                  done + t.out == done + [Echo(self, f)] + rest.out && t.exit == rest.exit)
  {
  }

  /** The exit reason a frame that does not survive produces. */
  function Failure(peer: User?, f: Frame): Exit {
    if peer != null && !f.forwardOk then ForwardError else EchoError
  }

  /** The loop handles frames until the first failure and no further: every
      frame before the last one handled survived; a read error ends it right
      after a surviving frame (or at once); a failed forward or echo ends it
      on the frame that failed. */
  lemma {:induction false} RunEndsAtFirstFailure(self: User, peer: User?, script: seq<Read>)
    ensures var r := Run(self, peer, script);
            var n := r.frames;
            && n <= |script|
            && (forall k :: 0 <= k < n ==> script[k].Received?)
            && (forall k :: 0 <= k < n - 1 ==> Survives(peer, script[k].frame))
            && (r.exit == ReadError ==>
                  (n == |script| || script[n].Failed?) && (0 < n ==> Survives(peer, script[n - 1].frame)))
            && (r.exit != ReadError ==>
                  0 < n && !Survives(peer, script[n - 1].frame) && r.exit == Failure(peer, script[n - 1].frame))
    decreases |script|
  {
    if script != [] && script[0].Received? {
      var st := Step(self, peer, script[0].frame);
      if st.verdict.Continue? {
        RunEndsAtFirstFailure(self, peer, script[1..]);
        var rest := Run(self, peer, script[1..]);
        forall k | 1 <= k < 1 + rest.frames ensures script[k].Received? {
          assert script[k] == script[1..][k - 1];
        }
        forall k | 1 <= k < rest.frames ensures Survives(peer, script[k].frame) {
          assert script[k] == script[1..][k - 1];
        }
      }
    }
  }

  /** With no peer, the loop writes nothing to anybody else: its output is
      the echo of every surviving frame, in the order read. */
  lemma {:induction false} RunUnpairedOnlyEchoes(self: User, script: seq<Read>)
    ensures var r := Run(self, null, script);
            && r.frames <= |script|
            && (forall k :: 0 <= k < r.frames ==> script[k].Received?)
            && |r.out| == r.frames - (if r.exit == EchoError then 1 else 0)
            && (forall j :: 0 <= j < |r.out| ==> r.out[j] == Echo(self, script[j].frame))
    decreases |script|
  {
    if script != [] && script[0].Received? {
      var st := Step(self, null, script[0].frame);
      if st.verdict.Continue? {
        RunUnpairedOnlyEchoes(self, script[1..]);
        var r, rest := Run(self, null, script), Run(self, null, script[1..]);
        forall k | 1 <= k < r.frames ensures script[k].Received? {
          assert script[k] == script[1..][k - 1];
        }
        forall j | 1 <= j < |r.out| ensures r.out[j] == Echo(self, script[j].frame) {
          assert r.out[j] == rest.out[j - 1] && script[j] == script[1..][j - 1];
        }
      }
    }
  }

  /** The write a paired loop makes in position `j` of its output. */
  function PairedWrite(self: User, peer: User, f: Frame, j: nat): Delivery {
    if j % 2 == 0 then Forward(peer, f) else Echo(self, f)
  }

  /** With a peer, every frame is forwarded to the peer and then echoed to
      the sender, frame after frame in the order read; a failed forward
      writes nothing for its frame, a failed echo leaves only the forward. */
  lemma {:induction false} RunPairedForwardsInOrder(self: User, peer: User, script: seq<Read>)
    ensures var r := Run(self, peer, script);
            && r.frames <= |script|
            && (forall k :: 0 <= k < r.frames ==> script[k].Received?)
            && |r.out| == 2 * r.frames - (match r.exit case ForwardError => 2 case EchoError => 1 case ReadError => 0)
            && (forall j :: 0 <= j < |r.out| ==> r.out[j] == PairedWrite(self, peer, script[j / 2].frame, j))
    decreases |script|
  {
    if script != [] && script[0].Received? {
      var st := Step(self, peer, script[0].frame);
      if st.verdict.Continue? {
        RunPairedForwardsInOrder(self, peer, script[1..]);
        var r, rest := Run(self, peer, script), Run(self, peer, script[1..]);
        forall k | 1 <= k < r.frames ensures script[k].Received? {
          assert script[k] == script[1..][k - 1];
        }
        forall j | 2 <= j < |r.out| ensures r.out[j] == PairedWrite(self, peer, script[j / 2].frame, j) {
          assert r.out[j] == rest.out[j - 2];
          assert script[j / 2] == script[1..][(j - 2) / 2];
        }
      }
    }
  }

  /** A malformed frame is relayed exactly like a well-formed one: the
      decoder's verdict changes neither the writes nor whether the loop
      goes on. */
  lemma MalformedFrameStillRelayed(self: User, peer: User?, f: Frame)
    requires !WellFormed(f)
    ensures Step(self, peer, f) == Step(self, peer, f.(decodeOk := true))
    ensures peer != null && f.forwardOk ==> Forward(peer, f) in Step(self, peer, f).out
    ensures Step(self, peer, f).verdict == Continue <==> Survives(peer, f)
  {
  }
}
