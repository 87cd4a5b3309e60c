/**
 * The game service: a map from session id to session, `RequestGame`, which
 * validates the dimensions and stores a fresh random bitmap under a new id,
 * and `SubscribeToGame`, which looks the id up and starts a subscription whose
 * every tick writes one frame and then advances its own copy of the grid.
 * The transport, the timer and the id generator are outside the model: the
 * timer's callback is `Subscription.Tick`, the `cancelled` event is
 * `Subscription.Cancel`, and the new id is a parameter of `RequestGame`.
 */
module GameServer {
  import opened Uint8
  import opened Wrappers
  import LifeEngine
  import LifeProperties
  import GenerateGrid

  /** The alive ratio `RequestGame` passes to the bitmap generator. */
  const ServerRatio: real := 0.25

  /** One stored game: its dimensions and its initial bitmap. */
  datatype Session = Session(width: nat, height: nat, bitmap: array<Byte>) {
    predicate Valid() {
      width > 0 && height > 0 && bitmap.Length == width * height
    }
  }

  /** The fields of a `RequestGame` call. */
  datatype GameRequest = GameRequest(width: int, height: int)

  /** The fields of a `SubscribeToGame` call as the client sends them; the server reads only the id. */
  datatype GameInformation = GameInformation(sessionId: string, height: int, width: int)

  /** The response of a successful `RequestGame`. */
  datatype GameCreated = GameCreated(height: nat, width: nat, sessionId: string)

  /** A gRPC INVALID_ARGUMENT status, or the error a stream is destroyed with. */
  datatype Error = InvalidArgument(details: string) | StreamDestroyed(message: string)

  /** One message written to a subscriber's stream. */
  datatype Frame = Frame(generation: nat, width: nat, height: nat, bitmap: seq<Byte>)

  /** The grid after k steps of the Life rule from `start`. */
  function Evolve(width: nat, height: nat, start: seq<Byte>, k: nat): (grid: seq<Byte>)
    requires |start| == width * height
    ensures |grid| == width * height
  {
    if k == 0 then start else LifeEngine.NextGeneration(width, height, Evolve(width, height, start, k - 1))
  }

  /** Stepping a generations and then b more is stepping a + b generations. */
  lemma {:induction false} EvolveCompose(width: nat, height: nat, start: seq<Byte>, a: nat, b: nat)
    requires |start| == width * height
    ensures Evolve(width, height, Evolve(width, height, start, a), b) == Evolve(width, height, start, a + b)
  {
    if b > 0 {
      EvolveCompose(width, height, start, a, b - 1);
    }
  }

  /** After at least one step every cell is 0 or 1, whatever the stored bytes; a 0/1 start stays 0/1. */
  lemma EvolveBinary(width: nat, height: nat, start: seq<Byte>, k: nat)
    requires |start| == width * height
    requires k > 0 || Binary(start)
    ensures Binary(Evolve(width, height, start, k))
  {
  }

  /** An all-dead stored bitmap stays all dead in every generation. */
  lemma {:induction false} EvolveAllDead(width: nat, height: nat, k: nat)
    ensures Evolve(width, height, Zeros(width * height), k) == Zeros(width * height)
  {
    if k > 0 {
      EvolveAllDead(width, height, k - 1);
      LifeProperties.AllDeadStaysDead(width, height);
    }
  }

  /** The stream a subscription has written after `count` ticks from the stored bitmap `start`. */
  ghost predicate FramesFrom(written: seq<Frame>, width: nat, height: nat, start: seq<Byte>, count: nat)
    requires |start| == width * height
  {
    && |written| == count
    && forall k :: 0 <= k < count ==> written[k] == Frame(k, width, height, Evolve(width, height, start, k))
  }

  /**
   * Two subscriptions to the same session write the same frames: the shorter
   * stream is a prefix of the longer one, whenever either started.
   */
  lemma StreamsAgree(first: seq<Frame>, second: seq<Frame>, width: nat, height: nat, start: seq<Byte>, n: nat, m: nat)
    requires |start| == width * height
    requires FramesFrom(first, width, height, start, n) && FramesFrom(second, width, height, start, m)
    requires n <= m
    ensures first == second[..n]
  {
  }

  /**
   * Along one stream the generations strictly increase, the dimensions are
   * the session's, and every frame after the first is a 0/1 grid.
   */
  lemma StreamShape(written: seq<Frame>, width: nat, height: nat, start: seq<Byte>, count: nat)
    requires |start| == width * height
    requires FramesFrom(written, width, height, start, count)
    ensures forall j, k :: 0 <= j < k < |written| ==> written[j].generation < written[k].generation
    ensures forall k :: 0 <= k < |written| ==>
              written[k].width == width && written[k].height == height && |written[k].bitmap| == width * height
    ensures forall k :: 0 < k < |written| ==> Binary(written[k].bitmap)
  {
    forall k | 0 < k < |written|
      ensures Binary(written[k].bitmap)
    {
      EvolveBinary(width, height, start, k);
    }
  }

  /**
   * The state of one `SubscribeToGame` call: its own `bitmap` and
   * `generation`, which every tick reassigns, and the frames written so far.
   */
  class Subscription {
    const width: nat
    const height: nat
    /** The stored session bitmap the subscription started from. */
    ghost const start: seq<Byte>
    var bitmap: array<Byte>
    var generation: nat
    var written: seq<Frame>
    var cancelled: bool

    /** The k-th frame carries generation k and the k-fold step of the stored bitmap. */
    ghost predicate Valid()
      reads this, bitmap
    {
      && |start| == width * height
      && bitmap.Length == width * height
      && bitmap[..] == Evolve(width, height, start, generation)
      && FramesFrom(written, width, height, start, generation)
    }

    /** Starts from the session's dimensions and its bitmap (the same buffer), at generation 0. */
    constructor (session: Session)
      requires session.Valid()
      ensures Valid()
      ensures width == session.width && height == session.height
      ensures bitmap == session.bitmap && start == session.bitmap[..]
      ensures generation == 0 && written == [] && !cancelled
    {
      width, height := session.width, session.height;
      start := session.bitmap[..];
      bitmap := session.bitmap;
      generation := 0;
      written := [];
      cancelled := false;
    }

    /**
     * One interval tick: writes the current generation and bitmap, then
     * replaces the bitmap by the next generation and counts one more. After
     * cancellation the interval is cleared and a tick does nothing.
     */
    method Tick()
      requires Valid()
      modifies this
      ensures Valid()
      ensures cancelled == old(cancelled)
      ensures old(cancelled) ==> generation == old(generation) && written == old(written) && bitmap == old(bitmap)
      ensures !old(cancelled) ==>
        && generation == old(generation) + 1
        && written == old(written) + [Frame(old(generation), width, height, old(bitmap[..]))]
        && fresh(bitmap)
    {
      if !cancelled {
        written := written + [Frame(generation, width, height, bitmap[..])];
        bitmap := LifeEngine.ComputeNextGeneration(width, height, bitmap);
        generation := generation + 1;
      }
    }

    /** The subscriber went away: no tick writes anything from now on. */
    method Cancel()
      requires Valid()
      modifies this
      ensures Valid() && cancelled
      ensures generation == old(generation) && written == old(written) && bitmap == old(bitmap)
    {
      cancelled := true;
    }
  }

  /** The service with its process-wide session map. */
  class GameService {
    var sessions: map<string, Session>

    ghost predicate Valid()
      reads this
    {
      forall id :: id in sessions ==> sessions[id].Valid()
    }

    constructor ()
      ensures Valid() && sessions == map[]
    {
      sessions := map[];
    }

    /**
     * Rejects non-positive dimensions with INVALID_ARGUMENT and leaves the
     * map alone; otherwise stores a fresh bitmap drawn with ServerRatio under
     * `sessionId` and echoes the dimensions with the id.
     */
    method RequestGame(request: GameRequest, sessionId: string, draws: seq<real>) returns (r: Result<GameCreated, Error>)
      requires Valid()
      requires request.width > 0 && request.height > 0 ==> |draws| >= request.width * request.height
      modifies this
      ensures Valid()
      ensures request.width <= 0 || request.height <= 0 ==>
        r == Failure(InvalidArgument("Invalid dimensions.")) && sessions == old(sessions)
      ensures request.width > 0 && request.height > 0 ==>
        && r == Success(GameCreated(request.height, request.width, sessionId))
        && sessionId in sessions
        && sessions == old(sessions)[sessionId := sessions[sessionId]]
        && sessions[sessionId].width == request.width
        && sessions[sessionId].height == request.height
        && fresh(sessions[sessionId].bitmap)
        && sessions[sessionId].bitmap[..] == GenerateGrid.InitialBitmap(draws, ServerRatio, request.width * request.height)
      ensures request.width > 0 && request.height > 0 && sessionId !in old(sessions) ==>
        |sessions| == |old(sessions)| + 1
    {
      var width, height := request.width, request.height;
      if width <= 0 || height <= 0 {
        return Failure(InvalidArgument("Invalid dimensions."));
      }
      var bitmap := GenerateGrid.GenerateInitialBitmap(width, height, draws, ServerRatio);
      sessions := sessions[sessionId := Session(width, height, bitmap)];
      r := Success(GameCreated(height, width, sessionId));
    }

    /**
     * Destroys the stream when the id is unknown; otherwise starts a
     * subscription on the stored session's dimensions and bitmap, ignoring
     * the dimensions in the request. The map is not changed.
     */
    method SubscribeToGame(request: GameInformation) returns (r: Result<Subscription, Error>)
      requires Valid()
      ensures request.sessionId !in sessions ==> r == Failure(StreamDestroyed("Invalid session ID."))
      ensures request.sessionId in sessions ==>
        && r.Success?
        && fresh(r.value)
        && r.value.Valid()
        && r.value.width == sessions[request.sessionId].width
        && r.value.height == sessions[request.sessionId].height
        && r.value.bitmap == sessions[request.sessionId].bitmap
        && r.value.generation == 0 && r.value.written == [] && !r.value.cancelled
    {
      if request.sessionId !in sessions {
        return Failure(StreamDestroyed("Invalid session ID."));
      }
      var session := sessions[request.sessionId];
      var subscription := new Subscription(session);
      r := Success(subscription);
    }
  }

  /** Runs n interval ticks of a live subscription. */
  method TickTimes(sub: Subscription, n: nat)
    requires sub.Valid() && !sub.cancelled
    modifies sub
    ensures sub.Valid() && !sub.cancelled
    ensures sub.generation == old(sub.generation) + n
  {
    for i := 0 to n
      invariant sub.Valid() && !sub.cancelled
      invariant sub.generation == old(sub.generation) + i
    {
      sub.Tick();
    }
  }

  /**
   * A run of the service: two requests with a zero dimension are rejected
   * and store nothing; a 5x5 game is created; a first subscriber (whose
   * request carries other dimensions) sees `ticks` frames and is cancelled,
   * after which its timer writes nothing; a second subscriber joins later and
   * sees `ticks + 2` frames. Both restart at generation 0 from the stored
   * bitmap, which no tick changes.
   */
  method TwoSubscribers(sessionId: string, draws: seq<real>, ticks: nat) returns (first: seq<Frame>, second: seq<Frame>, stored: seq<Byte>)
    requires |draws| >= 25
    ensures stored == GenerateGrid.InitialBitmap(draws, ServerRatio, 25)
    ensures |first| == ticks && |second| == ticks + 2
    ensures first == second[..ticks]
    ensures forall k :: 0 <= k < |second| ==> second[k] == Frame(k, 5, 5, Evolve(5, 5, stored, k))
  {
    var service := new GameService();
    var rejected := service.RequestGame(GameRequest(0, 5), sessionId, draws);
    assert rejected == Failure(InvalidArgument("Invalid dimensions.")) && service.sessions == map[];
    rejected := service.RequestGame(GameRequest(5, 0), sessionId, draws);
    assert rejected == Failure(InvalidArgument("Invalid dimensions.")) && service.sessions == map[];
    var created := service.RequestGame(GameRequest(5, 5), sessionId, draws);
    assert created == Success(GameCreated(5, 5, sessionId)) && |service.sessions| == 1;
    stored := service.sessions[sessionId].bitmap[..];
    ghost var table := service.sessions;

    var r := service.SubscribeToGame(GameInformation(sessionId, 1, 1));
    var a := r.value;
    TickTimes(a, ticks);
    a.Cancel();
    a.Tick();
    first := a.written;
    assert service.sessions == table && table[sessionId].bitmap[..] == stored;

    r := service.SubscribeToGame(GameInformation(sessionId, 0, 0));
    var b := r.value;
    TickTimes(b, ticks + 2);
    second := b.written;
    StreamsAgree(first, second, 5, 5, stored, ticks, ticks + 2);
  }
}
