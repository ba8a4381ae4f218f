// The byte-only boundary between the host and a handler: the result envelope, the adapter that
// surrounds an ordinary handler with load() and store(), and the host's side of the call.
//
// A handler is a function from the board's state and the parameters to the next state and an
// outcome; a handler that takes no board is one whose state is the unit value. `order` stands
// for the iteration order of the standard containers, which nothing here may depend on.
module HandlerBoundary {
  import opened Wrappers
  import opened ByteOrder
  import opened Parameters
  import opened Grammar
  import opened ByteStream
  import opened Buffers

  type Fields = map<bytes, Param>

  datatype HandlerError = HandlerError(httpCode: int32, message: bytes)

  type HandlerResult = Result<Fields, HandlerError>

  datatype Outcome = Returned(result: HandlerResult) | Threw(what: bytes)

  type Handler<!S> = (S, Fields) -> (S, Outcome)

  const INTERNAL_SERVER_ERROR: int32 := 500

  // Keys of the envelope, as bytes.
  const OK: bytes := [111, 107]
  const BODY: bytes := [98, 111, 100, 121]
  const HTTP_CODE: bytes := [104, 116, 116, 112, 95, 99, 111, 100, 101]
  const MESSAGE: bytes := [109, 101, 115, 115, 97, 103, 101]

  // The host's own 500 texts, abbreviated.
  const NO_RESPONSE: HandlerError := HandlerError(INTERNAL_SERVER_ERROR, [110])
  const MALFORMED_RESPONSE: HandlerError := HandlerError(INTERNAL_SERVER_ERROR, [109])
  const MALFORMED_ENVELOPE: HandlerError := HandlerError(INTERNAL_SERVER_ERROR, [101])
  const PARAMS_TOO_LARGE: HandlerError := HandlerError(INTERNAL_SERVER_ERROR, [116])

  const OUTPUT_CAPACITY: nat := 1024 * 1024

  // ----- the envelope -----

  function ToWire(r: HandlerResult): Param
  {
    match r
    case Success(body) => PMap(map[OK := PBool(true), BODY := PMap(body)])
    case Failure(e) => PMap(map[OK := PBool(false), HTTP_CODE := PI64(e.httpCode), MESSAGE := PText(e.message)])
  }

  /** m.at(key), required to hold the given alternative; any failure is the same caught exception. */
  function FromWire(p: Param): HandlerResult
  {
    if !p.PMap? then Failure(MALFORMED_ENVELOPE)
    else
      var m := p.fields;
      if OK !in m || !m[OK].PBool? then Failure(MALFORMED_ENVELOPE)
      else if m[OK].b then
        if BODY in m && m[BODY].PMap? then Success(m[BODY].fields) else Failure(MALFORMED_ENVELOPE)
      else if HTTP_CODE in m && m[HTTP_CODE].PI64? && MESSAGE in m && m[MESSAGE].PText? then
        Failure(HandlerError(ToInt32(m[HTTP_CODE].i), m[MESSAGE].text))
      else Failure(MALFORMED_ENVELOPE)
  }

  /** What of a result survives the wire. */
  function NormResult(r: HandlerResult): HandlerResult
  {
    match r
    case Success(body) => Success(NormFields(body))
    case Failure(e) => Failure(e)
  }

  lemma ToInt32Same(i: int32)
    ensures ToInt32(i) == i
  {
  }

  /** The envelope says what was put in it. */
  lemma EnvelopeRoundTrip(r: HandlerResult)
    ensures FromWire(NormParam(ToWire(r))) == NormResult(r)
  {
    assert |OK| == 2 && |BODY| == 4 && |HTTP_CODE| == 9 && |MESSAGE| == 7;
    match r
    case Success(body) =>
      assert NormParam(PMap(body)) == PMap(NormFields(body));
      assert NormParam(PBool(true)) == PBool(true);
    case Failure(e) =>
      ToInt32Same(e.httpCode);
  }

  // ----- the adapter around a handler -----

  /** `order` yields an iteration order of the envelope around one result. */
  ghost predicate OrdersResult(order: Param -> Value, r: HandlerResult)
  {
    IterationOf(order(ToWire(r)), ToWire(r))
  }

  /** The same for what a handler does, which sends a result also when it throws. */
  ghost predicate OrdersOutcome(order: Param -> Value, o: Outcome)
  {
    match o
    case Returned(r) => OrdersResult(order, r)
    case Threw(what) => OrdersResult(order, Failure(HandlerError(500, what)))
  }

  /** The parameters an adapter makes of its input bytes: none if they do not load as a map. */
  function DecodeParams(s: bytes): Result<Fields, ()>
  {
    match Unframe(s)
    case Success(v) => if v.Map? then Success(ForgetEntries(v.entries)) else Failure(())
    case Failure(_) => Failure(())
  }

  /** The result as the handler's side stores it into its output buffer: how many bytes, 0 for none. */
  function EncodeResult(order: Param -> Value, r: HandlerResult, outCap: nat): bytes
  {
    var frame := Frame(order(ToWire(r)));
    if |frame| <= outCap then frame else []
  }

  method BoardHandlerAdapter<S>(handler: Handler<S>, order: Param -> Value, board: S,
                                      paramsBuf: array<byte>, paramsLen: nat, outBuf: array<byte>, outCap: nat)
    returns (board': S, written: nat)
    requires paramsLen <= paramsBuf.Length && paramsLen < TWO_64
    requires outCap <= outBuf.Length && outCap < TWO_64
    requires match DecodeParams(paramsBuf[..paramsLen])
             case Failure(_) => true
             case Success(params) => OrdersOutcome(order, handler(board, params).1)
    modifies outBuf
    ensures written <= outCap
    ensures match DecodeParams(old(paramsBuf[..paramsLen]))
            case Failure(_) => board' == board && written == 0
            case Success(params) =>
              var (b, o) := handler(board, params);
              && board' == b
              && match o
                 case Returned(r) => outBuf[..written] == EncodeResult(order, r, outCap)
                 case Threw(what) => outBuf[..written] == EncodeResult(order, Failure(HandlerError(500, what)), outCap)
  {
    hide Unframe, Frame;
    var paramsStream := new ParameterByteStream(paramsBuf, paramsLen);
    var params := paramsStream.Load();
    if params.Failure? || !params.value.Map? {
      return board, 0;
    }
    var (b, o) := handler(board, ForgetEntries(params.value.entries));
    assert OrdersOutcome(order, o);
    var result := match o
      case Returned(r) => r
      case Threw(what) => Failure(HandlerError(INTERNAL_SERVER_ERROR, what));
    written := StoreResult(order, result, outBuf, outCap);
    return b, written;
  }

  method StoreResult(order: Param -> Value, result: HandlerResult, outBuf: array<byte>, outCap: nat)
    returns (written: nat)
    requires OrdersResult(order, result)
    requires outCap <= outBuf.Length && outCap < TWO_64
    modifies outBuf
    ensures written <= outCap && outBuf[..written] == EncodeResult(order, result, outCap)
  {
    hide Frame;
    var stream := new ParameterByteStream(outBuf, outCap);
    var stored := stream.Store(order(ToWire(result)));
    if stored.Failure? {
      return 0;
    }
    written := stream.offset;
    assert outBuf[..written] == outBuf[..][..written];
  }

  // ----- the host's side -----

  function Unwrap(s: bytes): HandlerResult
  {
    if s == [] then Failure(NO_RESPONSE)
    else match Unframe(s)
      case Failure(_) => Failure(MALFORMED_RESPONSE)
      case Success(v) => FromWire(Forget(v))
  }

  method UnwrapHandlerOutput(out: array<byte>, written: nat) returns (r: HandlerResult)
    requires written <= out.Length && written < TWO_64
    ensures r == Unwrap(out[..written])
  {
    hide Unframe, FromWire;
    if written == 0 {
      return Failure(NO_RESPONSE);
    }
    var stream := new ParameterByteStream(out, written);
    var envelope := stream.Load();
    return if envelope.Failure? then Failure(MALFORMED_RESPONSE) else FromWire(Forget(envelope.value));
  }

  /** What the host reads back of what the handler's side stored. */
  lemma UnwrapEncoded(order: Param -> Value, r: HandlerResult, outCap: nat)
    requires OrdersResult(order, r) && outCap < TWO_64
    ensures Unwrap(EncodeResult(order, r, outCap))
         == if |Frame(order(ToWire(r)))| <= outCap then NormResult(r) else Failure(NO_RESPONSE)
  {
    hide Frame, Unframe, FromWire, ToWire, Norm, NormParam, Forget;
    var v := order(ToWire(r));
    if |Frame(v)| <= outCap {
      StoreLoadAnyOrder(ToWire(r), v, []);
      assert Frame(v) + [] == Frame(v);
      EnvelopeRoundTrip(r);
      assert Unframe(Frame(v)).Success? && Forget(Unframe(Frame(v)).value) == NormParam(ToWire(r));
      assert EncodeResult(order, r, outCap) == Frame(v) != [];
      assert Unwrap(Frame(v)) == FromWire(NormParam(ToWire(r)));
    } else {
      assert EncodeResult(order, r, outCap) == [];
      assert Unwrap([]) == Failure(NO_RESPONSE);
    }
  }

  /** What the handler's side makes of the parameters the host stored. */
  lemma DecodeStored(params: Fields, v: Value)
    requires IterationOf(v, PMap(params)) && |Frame(v)| < TWO_64
    ensures DecodeParams(Frame(v)) == Success(NormFields(params))
  {
    hide Frame, Unframe, Norm, Enc;
    StoreLoadAnyOrder(PMap(params), v, []);
    assert Frame(v) + [] == Frame(v);
    NormOfMap(params, Unframe(Frame(v)).value);
  }

  lemma NormOfMap(params: Fields, v: Value)
    requires Forget(v) == NormParam(PMap(params))
    ensures v.Map? && ForgetEntries(v.entries) == NormFields(params)
  {
    assert NormParam(PMap(params)) == PMap(NormFields(params));
  }

  /** The part of dispatch() between parsing the parameters and sending the response, as if there were
      no bytes in between: the handler runs on the normalised parameters, what it returns comes back
      normalised, and what it throws comes back as a 500 with its text. All that the boundary adds is
      two size limits, 16 MiB for the parameters and 1 MiB for the result, each with its own 500. */
  method Dispatch<S>(handler: Handler<S>, order: Param -> Value, board: S, params: Fields)
    returns (board': S, r: HandlerResult)
    requires OrdersOutcome(order, handler(board, NormFields(params)).1)
    requires IterationOf(order(PMap(params)), PMap(params))
    ensures |Frame(order(PMap(params)))| > 0x100_0000 ==>
              board' == board && r == Failure(PARAMS_TOO_LARGE) && r.error.httpCode == 500
    ensures |Frame(order(PMap(params)))| <= 0x100_0000 ==>
              var (b, o) := handler(board, NormFields(params));
              && board' == b
              && match o
                 case Returned(d) =>
                   if |Frame(order(ToWire(d)))| <= 0x10_0000 then r == NormResult(d)
                   else r == Failure(NO_RESPONSE) && r.error.httpCode == 500
                 case Threw(what) =>
                   if |Frame(order(ToWire(Failure(HandlerError(500, what)))))| <= 0x10_0000 then
                     r == Failure(HandlerError(500, what))
                   else r == Failure(NO_RESPONSE) && r.error.httpCode == 500
  {
    hide Frame, Unframe, ToWire, FromWire, NormParam, NormFields, DecodeParams, EncodeResult, Unwrap;
    var v := order(PMap(params));
    var stored := StoreGrowing(v);
    if stored.Failure? {
      return board, Failure(PARAMS_TOO_LARGE);
    }
    var paramsBytes := new byte[|stored.value|](i requires 0 <= i < |stored.value| => stored.value[i]);
    assert paramsBytes[..] == stored.value;
    assert paramsBytes[..paramsBytes.Length] == Frame(v);
    DecodeStored(params, v);
    var outBuffer := new byte[OUTPUT_CAPACITY](_ => 0);
    var written;
    board', written := BoardHandlerAdapter(handler, order, board, paramsBytes, paramsBytes.Length, outBuffer, outBuffer.Length);
    ghost var o := handler(board, NormFields(params)).1;
    ghost var d := if o.Returned? then o.result else Failure(HandlerError(500, o.what));
    UnwrapEncoded(order, d, OUTPUT_CAPACITY);
    r := UnwrapHandlerOutput(outBuffer, written);
  }
}
