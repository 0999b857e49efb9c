/** What the host keeps for one request of an http-wasm guest, and how its
    resources are opened and released (imports/http_handler/state.go and
    imports/http_handler/middleware.go). */
module RequestStates {
  import opened Results
  import opened Sequences

  datatype Feature = BufferRequest | BufferResponse | Trailers

  /** The body readers and writers a request opens lazily. */
  datatype Slot = RequestReader | RequestWriter | ResponseReader | ResponseWriter

  datatype Body = RequestBody | ResponseBody

  datatype Target = Method | Uri | RequestHeader | RequestTrailer | ResponseHeader | ResponseTrailer | StatusCode

  /** A guest's call that reads or writes the message. */
  datatype Call = ReadBody(body: Body) | WriteBody(body: Body) | Set(target: Target)

  /** What the outside sees. A reader is closed and a writer flushed when released. */
  datatype Event =
    | Opened(request: nat, slot: Slot, handle: nat)
    | Used(handle: nat)
    | Released(handle: nat)
    | WroteRequest(request: nat)
    | WroteResponse(request: nat)
    | Taken(request: nat, guest: nat)
    | Pooled(request: nat, guest: nat)
    | CalledNext(request: nat)

  /** The fields of a request's state; handles and guests are numbered. */
  datatype Fields = Fields(
    afterNext: bool,
    requestReader: Option<nat>,
    requestWriter: Option<nat>,
    responseReader: Option<nat>,
    responseWriter: Option<nat>,
    features: set<Feature>,
    guest: Option<nat>)

  function At(f: Fields, s: Slot): Option<nat> {
    match s
    case RequestReader => f.requestReader
    case RequestWriter => f.requestWriter
    case ResponseReader => f.responseReader
    case ResponseWriter => f.responseWriter
  }

  function With(f: Fields, s: Slot, h: Option<nat>): (r: Fields)
    ensures At(r, s) == h && r.guest == f.guest && r.afterNext == f.afterNext && r.features == f.features
    ensures forall t :: t != s ==> At(r, t) == At(f, t)
    ensures h == At(f, s) ==> r == f
  {
    match s
    case RequestReader => f.(requestReader := h)
    case RequestWriter => f.(requestWriter := h)
    case ResponseReader => f.(responseReader := h)
    case ResponseWriter => f.(responseWriter := h)
  }

  // ----- what a guest may do

  predicate BeforeNext(f: Fields) { !f.afterNext }

  predicate BeforeNextOr(f: Fields, feature: Feature) {
    !f.afterNext || feature in f.features
  }

  predicate WritesRequest(c: Call) {
    match c
    case ReadBody(_) => false
    case WriteBody(body) => body.RequestBody?
    case Set(t) => t.Method? || t.Uri? || t.RequestHeader? || t.RequestTrailer?
  }

  /** Whether the call is let through. One that is not ends the guest. */
  predicate Allowed(f: Fields, c: Call) {
    match c
    case ReadBody(RequestBody) => BeforeNextOr(f, BufferRequest)
    case ReadBody(ResponseBody) => BeforeNextOr(f, BufferResponse)
    case WriteBody(RequestBody) => BeforeNext(f)
    case WriteBody(ResponseBody) => BeforeNextOr(f, BufferResponse)
    case Set(Method) => BeforeNext(f)
    case Set(Uri) => BeforeNext(f)
    case Set(RequestHeader) => BeforeNext(f)
    case Set(RequestTrailer) => BeforeNext(f)
    case Set(_) => BeforeNextOr(f, BufferResponse)
  }

  /** The slot a call works through, if it does. */
  function SlotOf(c: Call): Option<Slot> {
    match c
    case ReadBody(RequestBody) => Some(RequestReader)
    case ReadBody(ResponseBody) => Some(ResponseReader)
    case WriteBody(RequestBody) => Some(RequestWriter)
    case WriteBody(ResponseBody) => Some(ResponseWriter)
    case Set(_) => None
  }

  function Wrote(id: nat, c: Call): seq<Event> {
    if c.ReadBody? then [] else if WritesRequest(c) then [WroteRequest(id)] else [WroteResponse(id)]
  }

  /** The fields once a slot is open, a new handle opened only if it was not. */
  function Opening(f: Fields, s: Slot, handle: nat): (r: Fields)
    ensures At(r, s).Some?
  {
    if At(f, s).Some? then f else With(f, s, Some(handle))
  }

  function OpeningEvents(f: Fields, id: nat, s: Slot, handle: nat): seq<Event> {
    if At(f, s).Some? then [] else [Opened(id, s, handle)]
  }

  // ----- releasing

  const REQUEST_SLOTS := [RequestWriter, RequestReader]
  const ALL_SLOTS := [RequestWriter, RequestReader, ResponseWriter, ResponseReader]

  function Emptied(f: Fields, s: Slot): (r: Fields) { With(f, s, None) }

  function ReleaseEvents(f: Fields, s: Slot): seq<Event> {
    if At(f, s).None? then [] else [Released(At(f, s).value)]
  }

  /** The fields and the events once the slots are released in order. */
  function ReleaseAll(f: Fields, slots: seq<Slot>): (r: (Fields, seq<Event>))
    decreases |slots|
  {
    if slots == [] then (f, [])
    else
      var (before, events) := ReleaseAll(f, slots[..|slots| - 1]);
      var s := slots[|slots| - 1];
      (Emptied(before, s), events + ReleaseEvents(before, s))
  }

  lemma ReleaseNext(f: Fields, slots: seq<Slot>, s: Slot)
    ensures ReleaseAll(f, []) == (f, [])
    ensures var (before, events) := ReleaseAll(f, slots);
            ReleaseAll(f, slots + [s]) == (Emptied(before, s), events + ReleaseEvents(before, s))
  {
    assert (slots + [s])[..|slots|] == slots;
  }

  /** Releasing clears exactly the slots named, and releases each thing that was
      in them once and nothing else. */
  lemma {:induction false} ReleaseAllClears(f: Fields, slots: seq<Slot>)
    ensures var (r, events) := ReleaseAll(f, slots);
            && r.guest == f.guest && r.afterNext == f.afterNext && r.features == f.features
            && (forall s :: At(r, s) == if s in slots then None else At(f, s))
            && forall e :: e in events ==> e.Released? && exists s :: s in slots && At(f, s) == Some(e.handle)
    ensures forall s :: s in slots && At(f, s).Some? ==> Released(At(f, s).value) in ReleaseAll(f, slots).1
    decreases |slots|
  {
    if slots != [] {
      ReleaseAllClears(f, slots[..|slots| - 1]);
    }
  }

  /** Everything but the guest goes when a request is closed. */
  lemma ClosedIsEmpty(f: Fields)
    ensures forall s :: At(ReleaseAll(f, ALL_SLOTS).0, s) == None
  {
    ReleaseAllClears(f, ALL_SLOTS);
    forall s: Slot ensures s in ALL_SLOTS {
      assert s == ALL_SLOTS[0] || s == ALL_SLOTS[1] || s == ALL_SLOTS[2] || s == ALL_SLOTS[3];
    }
  }

  function Releasing(h: Option<nat>): seq<Event> {
    if h.None? then [] else [Released(h.value)]
  }

  /** What is let through: before next everything, and after it nothing that writes
      the request, the request's body only if it is buffered, and all that has to do
      with the response only if that is. */
  lemma AllowedIff(f: Fields, c: Call)
    ensures !f.afterNext ==> Allowed(f, c)
    ensures f.afterNext && c in {WriteBody(RequestBody), Set(Method), Set(Uri), Set(RequestHeader), Set(RequestTrailer)} ==> !Allowed(f, c)
    ensures f.afterNext && c == ReadBody(RequestBody) ==> (Allowed(f, c) <==> BufferRequest in f.features)
    ensures f.afterNext
            && c in {ReadBody(ResponseBody), WriteBody(ResponseBody), Set(ResponseHeader), Set(ResponseTrailer), Set(StatusCode)} ==>
              (Allowed(f, c) <==> BufferResponse in f.features)
  {
  }

  // ----- the object

  /** The pool of guests and what the outside has seen. */
  class World {
    var pool: multiset<nat>
    var log: seq<Event>
    var handles: nat

    constructor ()
      ensures pool == multiset{} && log == [] && handles == 0
    {
      pool, log, handles := multiset{}, [], 0;
    }
  }

  class RequestState {
    const id: nat
    const world: World
    var afterNext: bool
    var requestBodyReader: Option<nat>
    var requestBodyWriter: Option<nat>
    var responseBodyReader: Option<nat>
    var responseBodyWriter: Option<nat>
    var features: set<Feature>
    var g: Option<nat>

    function Now(): Fields
      reads this
    {
      Fields(afterNext, requestBodyReader, requestBodyWriter, responseBodyReader, responseBodyWriter, features, g)
    }

    constructor (id: nat, world: World, features: set<Feature>, g: nat)
      ensures this.id == id && this.world == world
      ensures Now() == Fields(false, None, None, None, None, features, Some(g))
    {
      this.id, this.world, this.features, this.g := id, world, features, Some(g);
      afterNext := false;
      requestBodyReader, requestBodyWriter, responseBodyReader, responseBodyWriter := None, None, None, None;
    }

    /** Releases what the request body needed: the writer, then the reader. */
    method CloseRequest()
      modifies this, world
      ensures Now() == ReleaseAll(old(Now()), REQUEST_SLOTS).0
      ensures world.log == old(world.log) + ReleaseAll(old(Now()), REQUEST_SLOTS).1
      ensures world.log == old(world.log) + Releasing(old(requestBodyWriter)) + Releasing(old(requestBodyReader))
      ensures requestBodyReader.None? && requestBodyWriter.None?
      ensures unchanged(`afterNext, `responseBodyReader, `responseBodyWriter, `features, `g)
      ensures world.pool == old(world.pool) && world.handles == old(world.handles)
    {
      hide ReleaseAll;
      ReleaseNext(Now(), [], RequestWriter);
      ReleaseNext(Now(), [RequestWriter], RequestReader);
      assert [RequestWriter] + [RequestReader] == REQUEST_SLOTS && [] + [RequestWriter] == [RequestWriter];
      if requestBodyWriter.Some? {
        world.log := world.log + [Released(requestBodyWriter.value)];
        requestBodyWriter := None;
      }
      if requestBodyReader.Some? {
        world.log := world.log + [Released(requestBodyReader.value)];
        requestBodyReader := None;
      }
    }

    /** Pools the guest, if it still has it, and releases everything else. */
    method Close()
      modifies this, world
      ensures Now() == ReleaseAll(old(Now()).(guest := None), ALL_SLOTS).0
      ensures world.pool == old(world.pool) + GuestIn(old(Now()))
      ensures world.log == old(world.log) + CloseEvents(id, old(Now())) && world.handles == old(world.handles)
      ensures world.log == old(world.log) + (if old(g).Some? then [Pooled(id, old(g).value)] else [])
                           + Releasing(old(requestBodyWriter)) + Releasing(old(requestBodyReader))
                           + Releasing(old(responseBodyWriter)) + Releasing(old(responseBodyReader))
      ensures g.None? && requestBodyReader.None? && requestBodyWriter.None? && responseBodyReader.None? && responseBodyWriter.None?
    {
      hide ReleaseAll;
      if g.Some? {
        world.pool := world.pool + multiset{g.value};
        world.log := world.log + [Pooled(id, g.value)];
        g := None;
      }
      ghost var f := Now();
      assert world.log == old(world.log) + PoolEvents(id, old(Now()));
      ReleaseNext(f, REQUEST_SLOTS, ResponseWriter);
      ReleaseNext(f, REQUEST_SLOTS + [ResponseWriter], ResponseReader);
      assert REQUEST_SLOTS + [ResponseWriter] + [ResponseReader] == ALL_SLOTS;
      CloseRequest();
      ghost var pooled, first := PoolEvents(id, old(Now())), ReleaseAll(f, REQUEST_SLOTS);
      ghost var second := ReleaseAll(f, REQUEST_SLOTS + [ResponseWriter]);
      Extend(old(world.log), pooled, first.1);
      Regroup(old(world.log), pooled, first.1, ReleaseEvents(first.0, ResponseWriter));
      Regroup(old(world.log), pooled, second.1, ReleaseEvents(second.0, ResponseReader));
      assert world.log == old(world.log) + (pooled + first.1);
      if responseBodyWriter.Some? {
        world.log := world.log + [Released(responseBodyWriter.value)];
        responseBodyWriter := None;
      }
      assert world.log == old(world.log) + (pooled + second.1);
      if responseBodyReader.Some? {
        world.log := world.log + [Released(responseBodyReader.value)];
        responseBodyReader := None;
      }
      assert world.log == old(world.log) + (pooled + ReleaseAll(f, ALL_SLOTS).1);
    }

    /** The reader or writer of a body, opened on first use; none when the call
        is not allowed now. */
    method BodyOf(c: Call) returns (h: Option<nat>)
      requires !c.Set?
      modifies this, world
      ensures h.Some? <==> old(Allowed(Now(), c))
      // Each body has a reader and a writer of its own, and no other is touched.
      ensures c == ReadBody(RequestBody) ==>
                && unchanged(`requestBodyWriter, `responseBodyReader, `responseBodyWriter)
                && (h.Some? ==> requestBodyReader == h && (old(requestBodyReader).Some? ==> h == old(requestBodyReader)))
      ensures c == ReadBody(ResponseBody) ==>
                && unchanged(`requestBodyReader, `requestBodyWriter, `responseBodyWriter)
                && (h.Some? ==> responseBodyReader == h && (old(responseBodyReader).Some? ==> h == old(responseBodyReader)))
      ensures c == WriteBody(RequestBody) ==>
                && unchanged(`requestBodyReader, `responseBodyReader, `responseBodyWriter)
                && (h.Some? ==> requestBodyWriter == h && (old(requestBodyWriter).Some? ==> h == old(requestBodyWriter)))
      ensures c == WriteBody(ResponseBody) ==>
                && unchanged(`requestBodyReader, `requestBodyWriter, `responseBodyReader)
                && (h.Some? ==> responseBodyWriter == h && (old(responseBodyWriter).Some? ==> h == old(responseBodyWriter)))
      ensures h.None? ==> Now() == old(Now()) && world.log == old(world.log) && world.handles == old(world.handles)
      ensures h.Some? ==>
                var s, f := SlotOf(c).value, old(Now());
                && Now() == Opening(f, s, old(world.handles)) && At(Now(), s) == h
                && world.log == old(world.log) + OpeningEvents(f, id, s, old(world.handles))
                && world.handles == old(world.handles) + |OpeningEvents(f, id, s, old(world.handles))|
      ensures world.pool == old(world.pool)
    {
      if !Allowed(Now(), c) {
        return None;
      }
      var s := SlotOf(c).value;
      if At(Now(), s).None? {
        var handle := world.handles;
        world.log, world.handles := world.log + [Opened(id, s, handle)], world.handles + 1;
        match s
        case RequestReader => requestBodyReader := Some(handle);
        case RequestWriter => requestBodyWriter := Some(handle);
        case ResponseReader => responseBodyReader := Some(handle);
        case ResponseWriter => responseBodyWriter := Some(handle);
      }
      h := At(Now(), s);
    }
  }

  function GuestIn(f: Fields): multiset<nat> {
    if f.guest.Some? then multiset{f.guest.value} else multiset{}
  }

  function PoolEvents(id: nat, f: Fields): seq<Event> {
    if f.guest.Some? then [Pooled(id, f.guest.value)] else []
  }

  function CloseEvents(id: nat, f: Fields): seq<Event> {
    PoolEvents(id, f) + ReleaseAll(f.(guest := None), ALL_SLOTS).1
  }
}
