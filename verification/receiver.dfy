/**
 The consuming side: `Receiver.start`'s read loop frames each received
 chunk on its own, parses every frame (reporting and skipping the ones that
 do not parse) and queues each record on every storage in registration
 order; an empty read stops every storage and ends the loop. Storages are
 reduced to what the loop touches, their queue and their listening flag.
 The parser is a parameter, so the fan-out facts hold for any parser.
 */
module Receiver {
  import opened Wrappers
  import Text
  import Framing
  import Wire

  /** A storage as the receiver sees it: its queue of records (oldest first) and whether it listens. */
  datatype Storage<R> = Storage(queue: seq<R>, listening: bool)

  /** `queue_data`, the same for the Postgres and Redis storages: the record goes at the tail. */
  function QueueData<R>(st: Storage<R>, d: R): (r: Storage<R>)
    ensures |r.queue| == |st.queue| + 1 && r.queue[..|st.queue|] == st.queue
    ensures r.queue[|st.queue|] == d && r.listening == st.listening
  {
    st.(queue := st.queue + [d])
  }

  /** `__storages` in `add_storage` order, and whether the read loop runs. */
  datatype Receiver<R> = Receiver(storages: seq<Storage<R>>, running: bool)

  function NewReceiver<R>(): Receiver<R> {
    Receiver([], false)
  }

  /** `add_storage`: the storage goes after all earlier ones, which keep their places. */
  function AddStorage<R>(rc: Receiver<R>, st: Storage<R>): (r: Receiver<R>)
    ensures |r.storages| == |rc.storages| + 1
    ensures forall j :: 0 <= j < |rc.storages| ==> r.storages[j] == rc.storages[j]
    ensures r.storages[|rc.storages|] == st && r.running == rc.running
  {
    rc.(storages := rc.storages + [st])
  }

  /** `start` up to the connect: the loop runs and every storage starts listening. */
  function Start<R>(rc: Receiver<R>): (r: Receiver<R>)
    ensures r.running && |r.storages| == |rc.storages|
    ensures forall j :: 0 <= j < |rc.storages| ==> r.storages[j] == rc.storages[j].(listening := true)
  {
    Receiver(seq(|rc.storages|, j requires 0 <= j < |rc.storages| => rc.storages[j].(listening := true)), true)
  }

  /** `for _s in self.__storages: _s.queue_data(d)`, one storage after another. */
  function FanOut<R>(stores: seq<Storage<R>>, d: R): (r: seq<Storage<R>>)
    ensures |r| == |stores|
    ensures forall j :: 0 <= j < |stores| ==> r[j].queue == stores[j].queue + [d]
    ensures forall j :: 0 <= j < |stores| ==> r[j].listening == stores[j].listening
  {
    if |stores| == 0 then [] else [QueueData(stores[0], d)] + FanOut(stores[1..], d)
  }

  /** The records a storage should receive from `frames`: every frame that parses, in frame order. */
  function Parsed<R>(frames: seq<string>, parse: string -> Option<R>): seq<R> {
    if |frames| == 0 then []
    else
      (match parse(frames[0]) case Some(d) => [d] case None => []) + Parsed(frames[1..], parse)
  }

  /** The frames that do not parse, in order: those the loop prints as errors. */
  function Rejected<R>(frames: seq<string>, parse: string -> Option<R>): (bad: seq<string>)
    ensures forall k :: 0 <= k < |bad| ==> parse(bad[k]).None? && bad[k] in frames
  {
    if |frames| == 0 then []
    else
      var rest := Rejected(frames[1..], parse);
      (if parse(frames[0]).None? then [frames[0]] else []) + rest
  }

  lemma {:induction false} ParsedConcat<R>(a: seq<string>, b: seq<string>, parse: string -> Option<R>)
    ensures Parsed(a + b, parse) == Parsed(a, parse) + Parsed(b, parse)
  {
    if |a| == 0 {
      assert a + b == b;
    } else {
      assert (a + b)[1..] == a[1..] + b;
      ParsedConcat(a[1..], b, parse);
    }
  }

  /** No failing frame goes unreported. */
  lemma {:induction false} RejectedComplete<R>(frames: seq<string>, parse: string -> Option<R>)
    ensures forall k :: 0 <= k < |frames| && parse(frames[k]).None? ==> frames[k] in Rejected(frames, parse)
  {
    if |frames| > 0 {
      RejectedComplete(frames[1..], parse);
      forall k | 0 < k < |frames| && parse(frames[k]).None?
        ensures frames[k] in Rejected(frames, parse)
      {
        assert frames[k] == frames[1..][k - 1];
      }
    }
  }

  lemma {:induction false} RejectedConcat<R>(a: seq<string>, b: seq<string>, parse: string -> Option<R>)
    ensures Rejected(a + b, parse) == Rejected(a, parse) + Rejected(b, parse)
  {
    if |a| == 0 {
      assert a + b == b;
    } else {
      assert (a + b)[1..] == a[1..] + b;
      RejectedConcat(a[1..], b, parse);
    }
  }

  /**
   Frame by frame: the records and the reports of a list of frames are those
   of the frames before `k`, then what frame `k` gives, then those of the
   frames after it; and frame `k` gives exactly one thing, its record when it
   parses and itself as a report when it does not.
   */
  lemma FrameParsedOrRejected<R>(frames: seq<string>, k: nat, parse: string -> Option<R>)
    requires k < |frames|
    ensures Parsed(frames, parse) == Parsed(frames[..k], parse) + Parsed([frames[k]], parse) + Parsed(frames[k + 1..], parse)
    ensures Rejected(frames, parse) == Rejected(frames[..k], parse) + Rejected([frames[k]], parse) + Rejected(frames[k + 1..], parse)
    ensures parse(frames[k]).Some? ==> Parsed([frames[k]], parse) == [parse(frames[k]).value] && Rejected([frames[k]], parse) == []
    ensures parse(frames[k]).None? ==> Parsed([frames[k]], parse) == [] && Rejected([frames[k]], parse) == [frames[k]]
  {
    var a, f, b := frames[..k], [frames[k]], frames[k + 1..];
    SplitAt(frames, k);
    ParsedConcat(a + f, b, parse);
    ParsedConcat(a, f, parse);
    RejectedConcat(a + f, b, parse);
    RejectedConcat(a, f, parse);
    SingleFrame(frames[k], parse);
  }

  lemma SplitAt<T>(s: seq<T>, k: nat)
    requires k < |s|
    ensures s == s[..k] + [s[k]] + s[k + 1..]
  {
    assert s[..k + 1] == s[..k] + [s[k]];
    assert s[..k + 1] + s[k + 1..] == s;
  }

  /** One frame gives its record when it parses and is reported when it does not. */
  lemma SingleFrame<R>(f: string, parse: string -> Option<R>)
    ensures parse(f).Some? ==> Parsed([f], parse) == [parse(f).value] && Rejected([f], parse) == []
    ensures parse(f).None? ==> Parsed([f], parse) == [] && Rejected([f], parse) == [f]
  {
    assert [f][1..] == [];
  }

  /** The records and the reports together number exactly the frames. */
  lemma {:induction false} ParsedOrRejected<R>(frames: seq<string>, parse: string -> Option<R>)
    ensures |Parsed(frames, parse)| + |Rejected(frames, parse)| == |frames|
  {
    if |frames| > 0 {
      ParsedOrRejected(frames[1..], parse);
    }
  }

  /** The storages after the frames are dispatched, and the frames reported as errors. */
  datatype Dispatched<R> = Dispatched(storages: seq<Storage<R>>, rejected: seq<string>)

  /**
   The loop over one chunk's frames: each frame is parsed; a failure is
   reported and skipped, a success is queued on every storage. Each storage
   ends up with exactly the parsed records appended, once each, in frame
   order, whatever frames fail in between.
   */
  function Dispatch<R>(stores: seq<Storage<R>>, frames: seq<string>, parse: string -> Option<R>): (d: Dispatched<R>)
    ensures |d.storages| == |stores|
    ensures forall j :: 0 <= j < |stores| ==> d.storages[j].queue == stores[j].queue + Parsed(frames, parse)
    ensures forall j :: 0 <= j < |stores| ==> d.storages[j].listening == stores[j].listening
    ensures d.rejected == Rejected(frames, parse)
    decreases |frames|
  {
    if |frames| == 0 then Dispatched(stores, [])
    else
      match parse(frames[0])
      case None =>
        var rest := Dispatch(stores, frames[1..], parse);
        Dispatched(rest.storages, [frames[0]] + rest.rejected)
      case Some(x) =>
        var rest := Dispatch(FanOut(stores, x), frames[1..], parse);
        QueuedAfterFanOut(stores, FanOut(stores, x), rest.storages, x, Parsed(frames[1..], parse));
        Dispatched(rest.storages, rest.rejected)
  }

  /** A record fanned out and then `later` queued behind it reach each storage as `[x] + later`. */
  lemma QueuedAfterFanOut<R>(stores: seq<Storage<R>>, fanned: seq<Storage<R>>, final: seq<Storage<R>>, x: R, later: seq<R>)
    requires |fanned| == |stores| && |final| == |stores|
    requires forall j :: 0 <= j < |stores| ==> fanned[j].queue == stores[j].queue + [x]
    requires forall j :: 0 <= j < |stores| ==> final[j].queue == fanned[j].queue + later
    ensures forall j :: 0 <= j < |stores| ==> final[j].queue == stores[j].queue + ([x] + later)
  {
    forall j | 0 <= j < |stores|
      ensures final[j].queue == stores[j].queue + ([x] + later)
    {
      Text.AppendAssoc(stores[j].queue, [x], later);
    }
  }

  /** What one pass of the read loop leaves, and the frames it reported as errors. */
  datatype Received<R> = Received(receiver: Receiver<R>, rejected: seq<string>)

  /**
   One `recv` of `data`. A non-empty chunk is framed on its own (no text is
   carried over from earlier reads) and its frames dispatched. An empty read
   means the peer closed: every storage is stopped, nothing is queued, and
   the loop ends. Once the loop has ended nothing more is read.
   */
  function OnRecv<R>(rc: Receiver<R>, data: string, parse: string -> Option<R>): (r: Received<R>)
    ensures |r.receiver.storages| == |rc.storages|
    ensures !rc.running ==> r.receiver == rc && r.rejected == []
    ensures rc.running && |data| > 0 ==> r.receiver.running
    ensures rc.running && |data| > 0 ==>
              forall j :: 0 <= j < |rc.storages| ==>
                r.receiver.storages[j].queue == rc.storages[j].queue + Parsed(Framing.Frames(data), parse)
                && r.receiver.storages[j].listening == rc.storages[j].listening
    ensures rc.running && |data| > 0 ==> r.rejected == Rejected(Framing.Frames(data), parse)
    ensures rc.running && |data| == 0 ==> !r.receiver.running && r.rejected == []
    ensures rc.running && |data| == 0 ==>
              forall j :: 0 <= j < |rc.storages| ==>
                r.receiver.storages[j] == rc.storages[j].(listening := false)
  {
    if !rc.running then Received(rc, [])
    else if |data| > 0 then
      var d := Dispatch(rc.storages, Framing.Frames(data), parse);
      Received(rc.(storages := d.storages), d.rejected)
    else
      Received(Receiver(seq(|rc.storages|, j requires 0 <= j < |rc.storages| => rc.storages[j].(listening := false)), false), [])
  }

  /**
   `Receiver.stop` reaching a loop blocked in `recv`: the loop is told to end
   and the socket is shut down. The shutdown wakes `recv` with an empty read,
   whose end-of-stream branch stops every storage; the model takes both in
   one step. Nothing is queued.
   */
  function Stop<R>(rc: Receiver<R>): (r: Receiver<R>)
    ensures !r.running && |r.storages| == |rc.storages|
    ensures forall j :: 0 <= j < |rc.storages| ==>
              r.storages[j].queue == rc.storages[j].queue && !r.storages[j].listening
  {
    Receiver(seq(|rc.storages|, j requires 0 <= j < |rc.storages| => rc.storages[j].(listening := false)), false)
  }

  /** Stopping a running receiver leaves exactly what the empty read it provokes leaves. */
  lemma StopIsEndOfStream<R>(rc: Receiver<R>, parse: string -> Option<R>)
    requires rc.running
    ensures Stop(rc) == OnRecv(rc, [], parse).receiver
  {
    var a := Stop(rc);
    var b := OnRecv(rc, [], parse).receiver;
    assert a.storages == b.storages;
  }

  /**
   Two reads in a row queue the records of the first chunk's frames and then
   those of the second's: each chunk is framed separately.
   */
  lemma TwoChunks<R>(rc: Receiver<R>, a: string, b: string, parse: string -> Option<R>)
    requires rc.running && |a| > 0 && |b| > 0
    ensures var r := OnRecv(OnRecv(rc, a, parse).receiver, b, parse).receiver;
            forall j :: 0 <= j < |rc.storages| ==>
              r.storages[j].queue == rc.storages[j].queue + Parsed(Framing.Frames(a) + Framing.Frames(b), parse)
  {
    ParsedConcat(Framing.Frames(a), Framing.Frames(b), parse);
  }

  /**
   End to end: one chunk carrying the messages of framable readings, back to
   back, queues exactly those readings on every storage, in order, and
   reports no error.
   */
  lemma ReceiveRendered(rc: Receiver<Wire.Reading>, xs: seq<Wire.Reading>)
    requires rc.running && |xs| > 0
    requires forall k :: 0 <= k < |xs| ==> Wire.Framable(xs[k])
    ensures var r := OnRecv(rc, Text.Flatten(Wire.Renders(xs)), Wire.ParseFlat);
            && r.rejected == []
            && forall j :: 0 <= j < |rc.storages| ==> r.receiver.storages[j].queue == rc.storages[j].queue + xs
  {
    var ms := Wire.Renders(xs);
    Wire.ParseFramesOfRenders(xs);
    assert |Text.Flatten(ms)| > 0 by {
      assert Text.Flatten(ms) == ms[0] + Text.Flatten(ms[1..]);
    }
    AllParsed(ms, xs, Wire.ParseFlat);
  }

  /** Frames that all parse yield their records in order and report nothing. */
  lemma {:induction false} AllParsed<R>(fs: seq<string>, xs: seq<R>, parse: string -> Option<R>)
    requires |fs| == |xs|
    requires forall k :: 0 <= k < |fs| ==> parse(fs[k]) == Some(xs[k])
    ensures Parsed(fs, parse) == xs
    ensures Rejected(fs, parse) == []
  {
    if |fs| > 0 {
      AllParsed(fs[1..], xs[1..], parse);
      assert xs == [xs[0]] + xs[1..];
    }
  }

  /** `{x}` is a frame but not JSON at all, so its parse fails. */
  lemma NotJsonRejected()
    ensures Framing.IsFrame("{x}")
    ensures Wire.ParseFlat("{x}") == None
  {
    assert "{x}"[1] != Wire.IecKey[1];
  }

  lemma BadThenGoodFrames(x: Wire.Reading)
    requires Wire.Framable(x)
    ensures Framing.Frames("{x}" + Wire.Render(x)) == ["{x}", Wire.Render(x)]
  {
    var m := Wire.Render(x);
    NotJsonRejected();
    Wire.FramableFrameSafe(x);
    Wire.RenderIsFrame(x);
    Framing.FramesCons("{x}", m);
    Framing.FramesOfFrame(m);
  }

  lemma BadThenGoodParsed<R>(bad: string, good: string, x: R, parse: string -> Option<R>)
    requires parse(bad) == None && parse(good) == Some(x)
    ensures Parsed([bad, good], parse) == [x]
    ensures Rejected([bad, good], parse) == [bad]
  {
    var fs := [bad, good];
    assert fs[1..] == [good];
    AllParsed([good], [x], parse);
  }

  /**
   A malformed frame does not stop the ones after it: a chunk holding `{x}`,
   which is not JSON, and then a good message reports `{x}` and still queues
   the reading.
   */
  lemma MalformedFrameSkipped(rc: Receiver<Wire.Reading>, x: Wire.Reading)
    requires rc.running && Wire.Framable(x)
    ensures var r := OnRecv(rc, "{x}" + Wire.Render(x), Wire.ParseFlat);
            && r.rejected == ["{x}"]
            && forall j :: 0 <= j < |rc.storages| ==> r.receiver.storages[j].queue == rc.storages[j].queue + [x]
  {
    BadThenGoodFrames(x);
    Wire.ParseRender(x);
    BadThenGoodParsed("{x}", Wire.Render(x), x, Wire.ParseFlat);
  }

  /** A non-empty chunk without a whole frame queues nothing and reports nothing. */
  lemma FramelessChunk<R>(rc: Receiver<R>, data: string, parse: string -> Option<R>)
    requires rc.running && |data| > 0 && Framing.Frames(data) == []
    ensures OnRecv(rc, data, parse).receiver.running
    ensures OnRecv(rc, data, parse).rejected == []
    ensures forall j :: 0 <= j < |rc.storages| ==>
              OnRecv(rc, data, parse).receiver.storages[j].queue == rc.storages[j].queue
  {
  }

  /** A chunk that is one frame, and parses, queues its record and nothing else. */
  lemma OneFrameQueued<R>(rc: Receiver<R>, m: string, x: R, parse: string -> Option<R>)
    requires rc.running && |m| > 0 && Framing.Frames(m) == [m] && parse(m) == Some(x)
    ensures var r := OnRecv(rc, m, parse).receiver;
            forall j :: 0 <= j < |rc.storages| ==> r.storages[j].queue == rc.storages[j].queue + [x]
  {
    AllParsed([m], [x], parse);
  }

  /** A chunk that is one message queues its reading. */
  lemma WholeMessageQueued(rc: Receiver<Wire.Reading>, x: Wire.Reading)
    requires rc.running && Wire.Framable(x)
    ensures var r := OnRecv(rc, Wire.Render(x), Wire.ParseFlat).receiver;
            forall j :: 0 <= j < |rc.storages| ==> r.storages[j].queue == rc.storages[j].queue + [x]
  {
    var m := Wire.Render(x);
    Wire.FramableFrameSafe(x);
    Wire.RenderIsFrame(x);
    Framing.FramesOfFrame(m);
    Wire.ParseRender(x);
    OneFrameQueued(rc, m, x, Wire.ParseFlat);
  }

  /**
   A message cut in two by the socket is lost: neither piece holds a whole
   frame, so reading the two pieces queues nothing, while reading the
   message in one piece queues its reading.
   */
  lemma SplitMessageLost(rc: Receiver<Wire.Reading>, x: Wire.Reading, k: nat)
    requires rc.running && Wire.Framable(x)
    requires '{' !in x.iec && '{' !in x.value && '{' !in x.timestamp
    requires 0 < k < |Wire.Render(x)|
    ensures var m := Wire.Render(x);
            var r := OnRecv(OnRecv(rc, m[..k], Wire.ParseFlat).receiver, m[k..], Wire.ParseFlat).receiver;
            forall j :: 0 <= j < |rc.storages| ==> r.storages[j].queue == rc.storages[j].queue
    ensures var r := OnRecv(rc, Wire.Render(x), Wire.ParseFlat).receiver;
            forall j :: 0 <= j < |rc.storages| ==> r.storages[j].queue == rc.storages[j].queue + [x]
  {
    var m := Wire.Render(x);
    Wire.FramableFrameSafe(x);
    Wire.RenderIsFrame(x);
    Wire.RenderOpensOnce(x);
    Framing.SplitFrameVanishes(m, k);
    FramelessChunk(rc, m[..k], Wire.ParseFlat);
    FramelessChunk(OnRecv(rc, m[..k], Wire.ParseFlat).receiver, m[k..], Wire.ParseFlat);
    WholeMessageQueued(rc, x);
  }
}
