/** One direction of a TCP connection: a FIFO of bytes whose reads and writes are scheduled by an adversary. */
module Tcp {
  import opened Wrappers
  import opened Bytes

  datatype IoError = Io | UnexpectedEof | WriteZero | Authentication

  datatype Poll<+T> = Pending | Ready(value: T) | Failed(error: IoError)

  /** A poll that makes no progress: TCP was not ready, failed, or had come to its end. */
  datatype Stop = Waited | Faulted | Ended

  /** The stop that a result reports, if it reports one. */
  function StopOf<T>(r: Poll<T>): Option<Stop> {
    match r
    case Pending => Some(Waited)
    case Ready(_) => None
    case Failed(e) =>
      match e
      case Io => Some(Faulted)
      case UnexpectedEof => Some(Ended)
      case WriteZero => Some(Ended)
      case Authentication => None
  }

  /** How writing to TCP can stop. */
  predicate StopsWrite<T>(r: Poll<T>) {
    r.Pending? || (r.Failed? && (r.error == Io || r.error == WriteZero))
  }

  function Noted(log: seq<Stop>, s: Option<Stop>): seq<Stop> {
    if s.None? then log else log + [s.value]
  }

  /** How TCP answers one poll. A flush is answered like a write of no bytes that succeeds. */
  datatype Answer = NotReady | Fails | Moves(n: nat)

  /** The next answer; behind the last one TCP is never ready again. */
  function Next(answers: seq<Answer>): Answer {
    if answers == [] then NotReady else answers[0]
  }

  function Behind(answers: seq<Answer>): seq<Answer> {
    if answers == [] then [] else answers[1..]
  }

  /** How many of `max` bytes an answer lets through. */
  function Moved(a: Answer, max: nat): nat {
    if a.Moves? then Min(a.n, max) else 0
  }

  /** What a write loop over `left` bytes makes of the answers of TCP: the bytes then left, and the answers behind. */
  function Drained(left: nat, answers: seq<Answer>): (nat, seq<Answer>)
    decreases left
  {
    if left == 0 then (0, answers)
    else
      var n := Moved(Next(answers), left);
      if n == 0 then (left, Behind(answers)) else Drained(left - n, Behind(answers))
  }

  lemma DrainedNothing(answers: seq<Answer>)
    ensures Drained(0, answers) == (0, answers)
  {
  }

  /** Every result of a poll follows from the answers that the adversary has laid out for it, and whatever is proved
      holds for all of them. */
  class Pipe {
    var inFlight: bytes
    var readAnswers: seq<Answer>
    var writeAnswers: seq<Answer>
    ghost var sent: bytes
    ghost var received: bytes
    ghost var readStops: seq<Stop>    // of all polls to read so far
    ghost var writeStops: seq<Stop>   // of all polls to write or flush so far

    ghost predicate Valid()
      reads `inFlight, `sent, `received
    {
      sent == received + inFlight
    }

    constructor (readAnswers: seq<Answer>, writeAnswers: seq<Answer>)
      ensures Valid() && sent == received == inFlight == []
      ensures this.readAnswers == readAnswers && this.writeAnswers == writeAnswers
    {
      this.readAnswers, this.writeAnswers := readAnswers, writeAnswers;
      inFlight, sent, received, readStops, writeStops := [], [], [], [], [];
    }

    /** Hands over any prefix of what is in flight, up to `max` bytes, or fails, or is not ready.
        No bytes mean the end of the stream. */
    method PollRead(max: nat) returns (r: Poll<bytes>)
      requires Valid()
      modifies this
      ensures Valid() && sent == old(sent)
      ensures (r.Ready? ==> |r.value| <= max) && (r.Failed? ==> r.error == Io)
      ensures received == if r.Ready? then old(received) + r.value else old(received)
      ensures |inFlight| == |old(inFlight)| - (if r.Ready? then |r.value| else 0)
      ensures writeStops == old(writeStops)
      ensures readStops == Noted(old(readStops), if r == Ready([]) then Some(Ended) else StopOf(r))
      ensures r.Pending? <==> Next(old(readAnswers)).NotReady?
      ensures r.Ready? <==> Next(old(readAnswers)).Moves?
      ensures r.Ready? ==> |r.value| == Moved(Next(old(readAnswers)), Min(max, |old(inFlight)|))
      ensures readAnswers == Behind(old(readAnswers)) && writeAnswers == old(writeAnswers)
    {
      match Next(readAnswers) {
        case NotReady =>
          r := Pending;
        case Fails =>
          r := Failed(Io);
        case Moves(k) =>
          var n := Min(k, Min(max, |inFlight|));
          r := Ready(inFlight[..n]);
          received := received + inFlight[..n];
          inFlight := inFlight[n..];
      }
      readAnswers := Behind(readAnswers);
      readStops := Noted(readStops, if r == Ready([]) then Some(Ended) else StopOf(r));
    }

    /** Accepts any prefix of `data`, possibly nothing, or fails, or is not ready. */
    method PollWrite(data: bytes) returns (r: Poll<nat>)
      requires Valid()
      modifies this
      ensures Valid() && received == old(received)
      ensures (r.Ready? ==> r.value <= |data|) && (r.Failed? ==> r.error == Io)
      ensures sent == if r.Ready? then old(sent) + data[..r.value] else old(sent)
      ensures writeStops == Noted(old(writeStops), if r == Ready(0) then Some(Ended) else StopOf(r))
      ensures r.Pending? <==> Next(old(writeAnswers)).NotReady?
      ensures r.Ready? <==> Next(old(writeAnswers)).Moves?
      ensures r.Ready? ==> r.value == Moved(Next(old(writeAnswers)), |data|)
      ensures writeAnswers == Behind(old(writeAnswers)) && readAnswers == old(readAnswers)
    {
      match Next(writeAnswers) {
        case NotReady =>
          r := Pending;
        case Fails =>
          r := Failed(Io);
        case Moves(k) =>
          var n := Min(k, |data|);
          r := Ready(n);
          inFlight := inFlight + data[..n];
          sent := sent + data[..n];
      }
      writeAnswers := Behind(writeAnswers);
      writeStops := Noted(writeStops, if r == Ready(0) then Some(Ended) else StopOf(r));
    }

    method PollFlush() returns (r: Poll<()>)
      modifies `writeStops, `writeAnswers
      ensures (r.Failed? ==> r.error == Io) && writeStops == Noted(old(writeStops), StopOf(r))
      ensures r.Pending? <==> Next(old(writeAnswers)).NotReady?
      ensures r.Ready? <==> Next(old(writeAnswers)).Moves?
      ensures writeAnswers == Behind(old(writeAnswers))
    {
      match Next(writeAnswers) {
        case NotReady =>
          r := Pending;
        case Fails =>
          r := Failed(Io);
        case Moves(_) =>
          r := Ready(());
      }
      writeAnswers := Behind(writeAnswers);
      writeStops := Noted(writeStops, StopOf(r));
    }
  }
}
