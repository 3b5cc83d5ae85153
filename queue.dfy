/** The batching queue behind the client: points are pushed one at a time,
    and a timer or a full batch sends them, newest first, as one text body
    of newline-separated lines. Events the queue emits to itself are direct
    calls here, the pending timer is a flag fired by `Tick`, and the HTTP
    transport is a ghost log of the bodies it was handed. */
module PointQueue {
  import opened Wrappers
  import opened Text
  import opened Seqs

  /** The text `JSON.stringify` makes of a point's context. */
  type Json = string

  /** A point as callers push it. `None` stands for a missing or null field;
      a context of `None` covers every falsy context. */
  datatype Point = Point(name: string, value: Option<SafeInt>, timestamp: Option<string>, context: Option<Json>)

  /** `point.value || 1`. */
  function FilledValue(p: Point): SafeInt
  {
    if p.value.Some? && p.value.value != 0 then p.value.value else 1
  }

  /** `point.timestamp || "now"`. */
  function FilledTimestamp(p: Point): string
  {
    if p.timestamp.Some? && p.timestamp.value != "" then p.timestamp.value else "now"
  }

  /** The line a point is sent as: name, value and timestamp joined by spaces,
      then the encoded context when there is one. */
  function FormatLine(p: Point, encodeContext: Json -> string): string
  {
    var head := Join([p.name, IntToString(FilledValue(p)), FilledTimestamp(p)], ' ');
    if p.context.Some? then head + " " + encodeContext(p.context.value) else head
  }

  /** The fields a reader recovers from a point's line. */
  function Fields(p: Point, encodeContext: Json -> string): seq<string>
  {
    [p.name, IntToString(FilledValue(p)), FilledTimestamp(p)]
      + (if p.context.Some? then [encodeContext(p.context.value)] else [])
  }

  /** A point whose text fields hold no space and no newline, so that its
      line can be read back. */
  predicate Readable(p: Point, encodeContext: Json -> string)
  {
    ' ' !in p.name && '\n' !in p.name
    && ' ' !in FilledTimestamp(p) && '\n' !in FilledTimestamp(p)
    && (p.context.Some? ==> ' ' !in encodeContext(p.context.value) && '\n' !in encodeContext(p.context.value))
  }

  function Reverse<T>(s: seq<T>): seq<T>
  {
    seq(|s|, i requires 0 <= i < |s| => s[|s| - 1 - i])
  }

  /** How many points one post takes from a queue of `n`, at most `limit`. */
  function BatchSize(n: nat, limit: nat): nat
  {
    if n < limit then n else limit
  }

  /** The points one post takes off the tail, in the order they are popped. */
  function Drained(items: seq<Point>, limit: nat): seq<Point>
  {
    Reverse(items[|items| - BatchSize(|items|, limit)..])
  }

  /** The points one post leaves behind. */
  function Remaining(items: seq<Point>, limit: nat): seq<Point>
  {
    items[..|items| - BatchSize(|items|, limit)]
  }

  function Lines(batch: seq<Point>, encodeContext: Json -> string): seq<string>
  {
    seq(|batch|, i requires 0 <= i < |batch| => FormatLine(batch[i], encodeContext))
  }

  /** The body one post sends. */
  function PostBody(items: seq<Point>, limit: nat, encodeContext: Json -> string): string
  {
    Join(Lines(Drained(items, limit), encodeContext), '\n')
  }

  /** The batches that posting until the queue is empty sends, in order. */
  function FlushBatches(items: seq<Point>, limit: nat): seq<seq<Point>>
    requires limit >= 1
    decreases |items|
  {
    if items == [] then []
    else [Drained(items, limit)] + FlushBatches(Remaining(items, limit), limit)
  }

  function Bodies(batches: seq<seq<Point>>, encodeContext: Json -> string): seq<string>
  {
    seq(|batches|, i requires 0 <= i < |batches| => Join(Lines(batches[i], encodeContext), '\n'))
  }

  /** The bodies that posting until the queue is empty sends, in order. */
  function FlushBodies(items: seq<Point>, limit: nat, encodeContext: Json -> string): seq<string>
    requires limit >= 1
  {
    Bodies(FlushBatches(items, limit), encodeContext)
  }

  function Flatten<T>(batches: seq<seq<T>>): seq<T>
  {
    if batches == [] then [] else batches[0] + Flatten(batches[1..])
  }

  lemma ReverseSnoc<T>(s: seq<T>, k: nat)
    requires 1 <= k <= |s|
    ensures Reverse(s[k - 1..]) == Reverse(s[k..]) + [s[k - 1]]
  {
  }

  lemma {:induction false} ReversePermutes<T>(s: seq<T>)
    ensures multiset(Reverse(s)) == multiset(s)
    decreases |s|
  {
    if s != [] {
      ReversePermutes(s[1..]);
      assert Reverse(s) == Reverse(s[1..]) + [s[0]];
      assert s == [s[0]] + s[1..];
    }
  }

  lemma ReverseTwice<T>(s: seq<T>)
    ensures Reverse(Reverse(s)) == s
  {
  }

  /** Where the drain loop stops: the queue is empty or `limit` points were taken. */
  lemma DrainExit(original: seq<Point>, k: nat, limit: nat)
    requires k <= |original| && |original| - k <= limit
    requires k == 0 || |original| - k == limit
    ensures original[..k] == Remaining(original, limit)
    ensures Reverse(original[k..]) == Drained(original, limit)
  {
  }

  lemma LinesSnoc(batch: seq<Point>, p: Point, encodeContext: Json -> string)
    ensures Lines(batch + [p], encodeContext) == Lines(batch, encodeContext) + [FormatLine(p, encodeContext)]
  {
  }

  /** One post takes `min(n, limit)` points off the tail and leaves the
      untouched prefix: nothing is lost and nothing is sent twice. */
  lemma DrainPartition(items: seq<Point>, limit: nat)
    ensures |Drained(items, limit)| == BatchSize(|items|, limit) <= limit
    ensures |Drained(items, limit)| <= |items|
    ensures Remaining(items, limit) + Reverse(Drained(items, limit)) == items
    ensures multiset(Remaining(items, limit)) + multiset(Drained(items, limit)) == multiset(items)
    ensures limit >= 1 && items != [] ==> |Remaining(items, limit)| < |items|
  {
    var k := |items| - BatchSize(|items|, limit);
    ReversePermutes(items[k..]);
    ReverseTwice(items[k..]);
    assert items[..k] + items[k..] == items;
  }

  /** Posting until empty sends every queued point exactly once, in batches
      of at least one and at most `limit` points. */
  lemma {:induction false} FlushPartition(items: seq<Point>, limit: nat)
    requires limit >= 1
    ensures multiset(Flatten(FlushBatches(items, limit))) == multiset(items)
    ensures forall i :: 0 <= i < |FlushBatches(items, limit)| ==> 1 <= |FlushBatches(items, limit)[i]| <= limit
    decreases |items|
  {
    if items != [] {
      DrainPartition(items, limit);
      var rest := Remaining(items, limit);
      FlushPartition(rest, limit);
      var batches := FlushBatches(items, limit);
      assert batches[1..] == FlushBatches(rest, limit);
      forall i | 0 <= i < |batches|
        ensures 1 <= |batches[i]| <= limit
      {
        if i > 0 {
          assert batches[i] == FlushBatches(rest, limit)[i - 1];
        }
      }
    }
  }

  /** A reader splitting a line on spaces gets the point's fields back, and
      the value field reads back as the value that was sent, never 0. */
  lemma LineFields(p: Point, encodeContext: Json -> string)
    requires Readable(p, encodeContext)
    ensures Split(FormatLine(p, encodeContext), ' ') == Fields(p, encodeContext)
    ensures ParseInt(Fields(p, encodeContext)[1]) == FilledValue(p) != 0
    ensures Fields(p, encodeContext)[2] != ""
    ensures '\n' !in FormatLine(p, encodeContext)
  {
    var head := [p.name, IntToString(FilledValue(p)), FilledTimestamp(p)];
    var fields := Fields(p, encodeContext);
    assert forall i :: 0 <= i < |head| ==> '\n' !in head[i];
    JoinFree(head, ' ', '\n');
    ParseIntToString(FilledValue(p));
    if p.context.Some? {
      var extra := encodeContext(p.context.value);
      assert fields == head + [extra];
      JoinSnoc(head, ' ', extra);
      SplitJoin(fields, ' ');
    } else {
      assert fields == head;
      SplitJoin(fields, ' ');
    }
  }

  lemma BatchReadable(items: seq<Point>, limit: nat, encodeContext: Json -> string, i: nat)
    requires forall j :: 0 <= j < |items| ==> Readable(items[j], encodeContext)
    requires i < |Drained(items, limit)|
    ensures Readable(Drained(items, limit)[i], encodeContext)
  {
    assert Drained(items, limit)[i] == items[|items| - 1 - i];
  }

  /** One step of posting until empty: the first body, then the rest. */
  lemma FlushBodiesStep(items: seq<Point>, limit: nat, encodeContext: Json -> string)
    requires items != [] && limit >= 1
    ensures FlushBodies(items, limit, encodeContext)
      == [PostBody(items, limit, encodeContext)] + FlushBodies(Remaining(items, limit), limit, encodeContext)
  {
    var rest := FlushBatches(Remaining(items, limit), limit);
    assert FlushBatches(items, limit) == [Drained(items, limit)] + rest;
  }

  /** A reader splitting a post body on newlines gets the batch's lines back,
      one per drained point, in pop order. */
  lemma PostBodyLines(items: seq<Point>, limit: nat, encodeContext: Json -> string)
    requires items != [] && limit >= 1
    requires forall i :: 0 <= i < |items| ==> Readable(items[i], encodeContext)
    ensures Split(PostBody(items, limit, encodeContext), '\n') == Lines(Drained(items, limit), encodeContext)
    ensures |Lines(Drained(items, limit), encodeContext)| == BatchSize(|items|, limit)
  {
    var batch := Drained(items, limit);
    var lines := Lines(batch, encodeContext);
    assert |batch| == BatchSize(|items|, limit) >= 1;
    forall i | 0 <= i < |lines|
      ensures '\n' !in lines[i]
    {
      BatchReadable(items, limit, encodeContext, i);
      LineFields(batch[i], encodeContext);
    }
    SplitJoin(lines, '\n');
  }

  /** The body `_post` sends holds one line more than `maxPostSize`: its
      loop runs while `lines.length <= maxPostSize`, so a queue holding more
      than `maxPostSize` readable points sends `maxPostSize + 1` lines. */
  lemma AsWrittenBodyExceedsLimit(items: seq<Point>, maxPostSize: nat, encodeContext: Json -> string)
    requires |items| > maxPostSize
    requires forall i :: 0 <= i < |items| ==> Readable(items[i], encodeContext)
    ensures |Split(PostBody(items, maxPostSize + 1, encodeContext), '\n')| == maxPostSize + 1
  {
    PostBodyLines(items, maxPostSize + 1, encodeContext);
  }

  /** With the bound taken as `maxPostSize` itself, no batch exceeds it. */
  lemma {:induction false} CappedBatchesFit(items: seq<Point>, maxPostSize: nat)
    requires maxPostSize >= 1
    ensures |Drained(items, maxPostSize)| <= maxPostSize
    ensures forall i :: 0 <= i < |FlushBatches(items, maxPostSize)| ==> |FlushBatches(items, maxPostSize)[i]| <= maxPostSize
  {
    DrainPartition(items, maxPostSize);
    FlushPartition(items, maxPostSize);
  }

  lemma LatencyLine(v: nat, digits: string, encodeContext: Json -> string)
    requires 10 <= v < 100 && digits == [('0' as int + v / 10) as char, ('0' as int + v % 10) as char]
    ensures FormatLine(Point("latency", Some(v), None, None), encodeContext) == "latency " + digits + " now"
  {
    var p := Point("latency", Some(v), None, None);
    assert IntToString(v) == digits by {
      assert NatToString(v) == NatToString(v / 10) + [('0' as int + v % 10) as char];
    }
    assert FilledValue(p) == v && FilledTimestamp(p) == "now";
    var fields := ["latency", digits, "now"];
    assert fields[1..] == [digits, "now"];
    assert fields[1..][1..] == ["now"];
    assert Join(fields[1..], ' ') == digits + [' '] + "now";
    assert Join(fields, ' ') == "latency" + [' '] + (digits + [' '] + "now");
  }

  /** Two points pushed without timestamp or context and posted together:
      the newer one comes first, each stamped "now". */
  lemma TwoPointsOneBody(encodeContext: Json -> string)
    ensures var first := Point("latency", Some(42), None, None);
      var second := Point("latency", Some(17), None, None);
      PostBody([first, second], 201, encodeContext) == "latency 17 now\nlatency 42 now"
  {
    var first := Point("latency", Some(42), None, None);
    var second := Point("latency", Some(17), None, None);
    LatencyLine(42, "42", encodeContext);
    LatencyLine(17, "17", encodeContext);
    PairBody(first, second, 201, encodeContext);
    LiteralBody();
  }

  /** Two points posted together, newest first. */
  lemma PairBody(first: Point, second: Point, limit: nat, encodeContext: Json -> string)
    requires limit >= 2
    ensures PostBody([first, second], limit, encodeContext)
      == FormatLine(second, encodeContext) + ['\n'] + FormatLine(first, encodeContext)
  {
    assert Drained([first, second], limit) == [second, first];
    var lines := Lines([second, first], encodeContext);
    assert lines == [FormatLine(second, encodeContext), FormatLine(first, encodeContext)];
    assert lines[1..] == [lines[1]];
    assert Join(lines[1..], '\n') == lines[1];
    assert Join(lines, '\n') == lines[0] + ['\n'] + lines[1];
  }

  lemma LiteralBody()
    ensures "latency " + "17" + " now" + ['\n'] + ("latency " + "42" + " now") == "latency 17 now\nlatency 42 now"
  {
  }

  class Queue {
    /** `_items`: points waiting to be posted, oldest first. */
    var items: seq<Point>
    /** `_timer != null`: a post is scheduled. */
    var timerArmed: bool
    /** How many timers `setTimeout` has created. */
    ghost var timersStarted: nat
    /** The bodies handed to the transport, oldest first. */
    ghost var sent: seq<string>

    const maxQueueSize: nat := 10000
    const maxPostSize: nat := 200
    /** `new Buffer(JSON.stringify(context)).toString("base64")`. */
    const encodeContext: Json -> string

    ghost predicate Valid()
      reads this
    {
      |items| <= maxQueueSize
    }

    constructor (encodeContext: Json -> string)
      ensures Valid()
      ensures items == [] && !timerArmed && timersStarted == 0 && sent == []
      ensures this.encodeContext == encodeContext
    {
      items := [];
      timerArmed := false;
      timersStarted := 0;
      sent := [];
      this.encodeContext := encodeContext;
    }

    /** `_setTimeout`: schedules a post unless one is already pending. */
    method SetTimeout()
      modifies this`timerArmed, this`timersStarted
      ensures timerArmed
      ensures timersStarted == old(timersStarted) + (if old(timerArmed) then 0 else 1)
    {
      if !timerArmed {
        timerArmed := true;
        timersStarted := timersStarted + 1;
      }
    }

    /** `_clearTimeout`: cancels any pending post. */
    method ClearTimeout()
      modifies this`timerArmed
      ensures !timerArmed
    {
      timerArmed := false;
    }

    /** `_post` with the batch bounded by `limit` lines: cancels the timer,
        then pops points off the tail, formats each as a line, and sends the
        lines joined by newlines. An empty queue sends nothing. */
    method PostAtMost(limit: nat)
      requires Valid()
      modifies this`items, this`timerArmed, this`sent
      ensures Valid() && !timerArmed
      ensures old(items) == [] ==> items == [] && sent == old(sent)
      ensures old(items) != [] ==> items == Remaining(old(items), limit)
      ensures old(items) != [] ==> sent == old(sent) + [PostBody(old(items), limit, encodeContext)]
    {
      var lines: seq<string> := [];
      ClearTimeout();
      if |items| == 0 {
        return;
      }
      ghost var original := items;
      while |items| > 0 && |lines| < limit
        invariant Valid() && !timerArmed && sent == old(sent)
        invariant |items| <= |original|
        invariant items == original[..|items|]
        invariant |lines| == |original| - |items| <= limit
        invariant lines == Lines(Reverse(original[|items|..]), encodeContext)
        decreases |items|
      {
        ReverseSnoc(original, |items|);
        LinesSnoc(Reverse(original[|items|..]), original[|items| - 1], encodeContext);
        var point := items[|items| - 1];
        items := items[..|items| - 1];
        var value := if point.value.Some? && point.value.value != 0 then point.value.value else 1;
        var timestamp := if point.timestamp.Some? && point.timestamp.value != "" then point.timestamp.value else "now";
        var line := Join([point.name, IntToString(value), timestamp], ' ');
        if point.context.Some? {
          line := line + " " + encodeContext(point.context.value);
        }
        assert line == FormatLine(point, encodeContext);
        lines := lines + [line];
      }
      DrainExit(original, |items|, limit);
      var body := Join(lines, '\n');
      sent := sent + [body];
    }

    /** `_post` as written: its loop runs while `lines.length <= maxPostSize`,
        so a batch holds up to `maxPostSize + 1` points. */
    method Post()
      requires Valid()
      modifies this`items, this`timerArmed, this`sent
      ensures Valid() && !timerArmed
      ensures old(items) == [] ==> items == [] && sent == old(sent)
      ensures old(items) != [] ==> items == Remaining(old(items), maxPostSize + 1)
      ensures old(items) != [] ==> sent == old(sent) + [PostBody(old(items), maxPostSize + 1, encodeContext)]
    {
      PostAtMost(maxPostSize + 1);
    }

    /** `_post` with the batch bounded by `maxPostSize` itself. */
    method PostCapped()
      requires Valid()
      modifies this`items, this`timerArmed, this`sent
      ensures Valid() && !timerArmed
      ensures old(items) == [] ==> items == [] && sent == old(sent)
      ensures old(items) != [] ==> items == Remaining(old(items), maxPostSize)
      ensures old(items) != [] ==> sent == old(sent) + [PostBody(old(items), maxPostSize, encodeContext)]
    {
      PostAtMost(maxPostSize);
    }

    /** The pending timer fires and emits "post"; with no timer pending
        nothing happens. */
    method Tick()
      requires Valid()
      modifies this`items, this`timerArmed, this`sent
      ensures Valid() && !timerArmed
      ensures !old(timerArmed) ==> items == old(items) && sent == old(sent)
      ensures old(timerArmed) && old(items) == [] ==> items == [] && sent == old(sent)
      ensures old(timerArmed) && old(items) != [] ==> items == Remaining(old(items), maxPostSize + 1)
      ensures old(timerArmed) && old(items) != [] ==> sent == old(sent) + [PostBody(old(items), maxPostSize + 1, encodeContext)]
    {
      if timerArmed {
        Post();
      }
    }

    /** `push`: a full queue drops the point; otherwise the point goes to the
        tail, a post is scheduled, and reaching `maxPostSize` points posts at
        once. */
    method Push(point: Point)
      requires Valid()
      modifies this`items, this`timerArmed, this`timersStarted, this`sent
      ensures Valid()
      ensures |old(items)| >= maxQueueSize ==>
        items == old(items) && timerArmed == old(timerArmed)
        && timersStarted == old(timersStarted) && sent == old(sent)
      ensures |old(items)| < maxQueueSize ==>
        timersStarted == old(timersStarted) + (if old(timerArmed) then 0 else 1)
      ensures |old(items)| + 1 < maxPostSize ==>
        items == old(items) + [point] && timerArmed && sent == old(sent)
      ensures maxPostSize <= |old(items)| + 1 <= maxQueueSize ==>
        items == Remaining(old(items) + [point], maxPostSize + 1) && !timerArmed
        && sent == old(sent) + [PostBody(old(items) + [point], maxPostSize + 1, encodeContext)]
      ensures |old(items)| < maxPostSize ==> |items| < maxPostSize
    {
      if |items| >= maxQueueSize {
        return;
      }
      items := items + [point];
      SetTimeout();
      if |items| >= maxPostSize {
        ghost var q := items;
        Post();
        assert |old(items)| < maxPostSize ==> items == [] by {
          DrainPartition(q, maxPostSize + 1);
        }
      }
    }

    /** `flush` as its name promises: posts until the queue is empty. */
    method Flush()
      requires Valid()
      modifies this`items, this`timerArmed, this`sent
      ensures Valid() && items == []
      ensures sent == old(sent) + FlushBodies(old(items), maxPostSize + 1, encodeContext)
      ensures old(items) != [] ==> !timerArmed
      ensures old(items) == [] ==> timerArmed == old(timerArmed)
    {
      while |items| > 0
        invariant Valid()
        invariant |items| <= |old(items)|
        invariant |items| < |old(items)| ==> !timerArmed
        invariant |items| == |old(items)| ==> items == old(items) && timerArmed == old(timerArmed)
        invariant sent + FlushBodies(items, maxPostSize + 1, encodeContext)
          == old(sent) + FlushBodies(old(items), maxPostSize + 1, encodeContext)
        decreases |items|
      {
        ghost var before := items;
        ghost var sentBefore := sent;
        DrainPartition(before, maxPostSize + 1);
        FlushBodiesStep(before, maxPostSize + 1, encodeContext);
        Post();
        assert items == Remaining(before, maxPostSize + 1);
        ghost var body := PostBody(before, maxPostSize + 1, encodeContext);
        assert sent == sentBefore + [body];
        ConcatAssoc(sentBefore, [body], FlushBodies(items, maxPostSize + 1, encodeContext));
      }
    }

    /** `flush` as written calls `this._post`, which the queue does not have:
        on a non-empty queue it throws a TypeError before changing anything,
        and on an empty one it returns at once. */
    method FlushAsWritten() returns (threw: bool)
      ensures threw <==> items != []
    {
      threw := |items| > 0;
    }
  }

  /** A fresh queue, two points pushed without timestamp or context, then
      the timer fires: one body goes out, the newer point first, and the
      queue is left empty with no timer pending. */
  method TwoPushesThenTick(encodeContext: Json -> string) returns (q: Queue)
    ensures fresh(q) && q.Valid()
    ensures q.items == [] && !q.timerArmed
    ensures q.sent == ["latency 17 now\nlatency 42 now"]
  {
    var first := Point("latency", Some(42), None, None);
    var second := Point("latency", Some(17), None, None);
    q := new Queue(encodeContext);
    q.Push(first);
    q.Push(second);
    assert q.items == [first, second] && q.timerArmed && q.sent == [];
    q.Tick();
    assert q.sent == [PostBody([first, second], 201, encodeContext)];
    TwoPointsOneBody(encodeContext);
  }
}
