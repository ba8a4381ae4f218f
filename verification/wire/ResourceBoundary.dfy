// Registering a resource: its path, method and parameter descriptions cross the same byte boundary
// as the calls do (resource_wire and plugin_api_t::add_resource).
module ResourceBoundary {
  import opened Wrappers
  import opened ByteOrder
  import opened Parameters
  import opened Grammar
  import opened ByteStream
  import opened Buffers
  import HandlerBoundary

  /** The enumerations are held in the int that C++ gives them. */
  datatype ParamSpec = ParamSpec(name: bytes, kind: int32, required: bool, defaultValue: Param)

  datatype Spec = Spec(path: bytes, httpMethod: int32, params: seq<ParamSpec>)

  // Keys of the description, as bytes.
  const NAME: bytes := [110, 97, 109, 101]
  const TYPE: bytes := [116, 121, 112, 101]
  const REQUIRED: bytes := [114, 101, 113, 117, 105, 114, 101, 100]
  const DEFAULT_VALUE: bytes := [100, 101, 102, 97, 117, 108, 116, 95, 118, 97, 108, 117, 101]
  const PATH: bytes := [112, 97, 116, 104]
  const METHOD: bytes := [109, 101, 116, 104, 111, 100]
  const PARAMS: bytes := [112, 97, 114, 97, 109, 115]

  function ParamToWire(s: ParamSpec): Param
  {
    PMap(map[NAME := PText(s.name), TYPE := PI64(s.kind), REQUIRED := PBool(s.required), DEFAULT_VALUE := s.defaultValue])
  }

  function ToWire(s: Spec): Param
  {
    PMap(map[PATH := PText(s.path), METHOD := PI64(s.httpMethod),
             PARAMS := PList(seq(|s.params|, i requires 0 <= i < |s.params| => ParamToWire(s.params[i])))])
  }

  function ParamFromWire(p: Param): Result<ParamSpec, ()>
  {
    if p.PMap? && NAME in p.fields && p.fields[NAME].PText? && TYPE in p.fields && p.fields[TYPE].PI64?
       && REQUIRED in p.fields && p.fields[REQUIRED].PBool? && DEFAULT_VALUE in p.fields then
      Success(ParamSpec(p.fields[NAME].text, ToInt32(p.fields[TYPE].i), p.fields[REQUIRED].b, p.fields[DEFAULT_VALUE]))
    else Failure(())
  }

  /** All items, or nothing when one of them is malformed. */
  function ParamsFromWire(items: seq<Param>): (r: Result<seq<ParamSpec>, ()>)
    ensures r.Success? ==> |r.value| == |items|
  {
    if items == [] then Success([])
    else
      var front, last := ParamsFromWire(items[..|items| - 1]), ParamFromWire(items[|items| - 1]);
      if front.Success? && last.Success? then Success(front.value + [last.value]) else Failure(())
  }

  function FromWire(p: Param): Result<Spec, ()>
  {
    if !p.PMap? || PATH !in p.fields || !p.fields[PATH].PText? || METHOD !in p.fields || !p.fields[METHOD].PI64?
       || PARAMS !in p.fields || !p.fields[PARAMS].PList? then Failure(())
    else match ParamsFromWire(p.fields[PARAMS].items)
      case Success(params) => Success(Spec(p.fields[PATH].text, ToInt32(p.fields[METHOD].i), params))
      case Failure(_) => Failure(())
  }

  /** What of a description survives the wire: everything but an unsigned default value. */
  function NormParamSpec(s: ParamSpec): ParamSpec
  {
    s.(defaultValue := NormParam(s.defaultValue))
  }

  function NormParamSpecs(params: seq<ParamSpec>): (r: seq<ParamSpec>)
    ensures |r| == |params| && forall i :: 0 <= i < |r| ==> r[i] == NormParamSpec(params[i])
  {
    seq(|params|, i requires 0 <= i < |params| => NormParamSpec(params[i]))
  }

  function NormSpec(s: Spec): Spec
  {
    s.(params := NormParamSpecs(s.params))
  }

  lemma NormScalar(p: Param)
    requires p.PText? || p.PI64? || p.PBool?
    ensures NormParam(p) == p
  {
  }

  lemma ParamRoundTrip(s: ParamSpec)
    ensures ParamFromWire(NormParam(ParamToWire(s))) == Success(NormParamSpec(s))
  {
    assert |NAME| == 4 && |TYPE| == 4 && NAME[0] != TYPE[0] && |REQUIRED| == 8 && |DEFAULT_VALUE| == 13;
    HandlerBoundary.ToInt32Same(s.kind);
  }

  lemma {:induction false} ParamsRoundTrip(items: seq<Param>, params: seq<ParamSpec>)
    requires |items| == |params|
    requires forall i :: 0 <= i < |items| ==> items[i] == NormParam(ParamToWire(params[i]))
    ensures ParamsFromWire(items) == Success(NormParamSpecs(params))
  {
    if items == [] {
    } else {
      hide ParamFromWire, NormParam, ParamToWire, NormParamSpec, NormParamSpecs;
      var n := |items| - 1;
      ParamsRoundTrip(items[..n], params[..n]);
      ParamRoundTrip(params[n]);
      NormParamSpecsSnoc(params, n);
    }
  }

  lemma NormParamSpecsSnoc(params: seq<ParamSpec>, n: nat)
    requires |params| == n + 1
    ensures NormParamSpecs(params) == NormParamSpecs(params[..n]) + [NormParamSpec(params[n])]
  {
  }

  /** A description says on the host's side what the plugin registered. */
  lemma SpecRoundTrip(s: Spec)
    ensures FromWire(NormParam(ToWire(s))) == Success(NormSpec(s))
  {
    assert |PATH| == 4 && |METHOD| == 6 && |PARAMS| == 6 && METHOD[0] != PARAMS[0];
    NormScalar(PText(s.path));
    NormScalar(PI64(s.httpMethod));
    var wire := NormParam(ToWire(s));
    assert wire.fields[PATH] == PText(s.path) && wire.fields[METHOD] == PI64(s.httpMethod);
    HandlerBoundary.ToInt32Same(s.httpMethod);
    hide ParamToWire, NormParamSpec;
    assert wire.fields[PARAMS] == NormParam(ToWire(s).fields[PARAMS]);
    ParamsRoundTrip(wire.fields[PARAMS].items, s.params);
  }

  /** decode_resource_spec. */
  function Decoded(s: bytes): Result<Spec, ()>
  {
    match Unframe(s)
    case Success(v) => FromWire(Forget(v))
    case Failure(_) => Failure(())
  }

  lemma DecodeEncoded(s: Spec, v: Value)
    requires IterationOf(v, ToWire(s)) && |Frame(v)| < TWO_64
    ensures Decoded(Frame(v)) == Success(NormSpec(s))
  {
    hide Frame, Unframe, FromWire, ToWire, Norm, NormParam, Forget, Enc;
    StoreLoadAnyOrder(ToWire(s), v, []);
    assert Frame(v) + [] == Frame(v);
    SpecRoundTrip(s);
  }

  /** The host's list of resources, without the handlers that travel beside the bytes. */
  class Registry {
    var resources: seq<Spec>

    constructor ()
      ensures resources == []
    {
      resources := [];
    }

    /** The byte-only add_resource: a malformed description is dropped. */
    method AddEncoded(buf: array<byte>, len: nat)
      requires len <= buf.Length && len < TWO_64
      modifies this
      ensures resources == old(resources)
              + match Decoded(buf[..len]) { case Success(s) => [s] case Failure(_) => [] }
    {
      hide Unframe, FromWire;
      var stream := new ParameterByteStream(buf, len);
      var wire := stream.Load();
      if wire.Success? {
        var spec := FromWire(Forget(wire.value));
        if spec.Success? {
          resources := resources + [spec.value];
        }
      }
    }

    /** The convenience add_resource: what ends up registered is what was asked for, up to the
        signedness of default values, unless it does not fit the largest buffer. */
    method Add(s: Spec, v: Value)
      requires IterationOf(v, ToWire(s))
      modifies this
      ensures resources == old(resources) + if |Frame(v)| <= MAX_CAPACITY then [NormSpec(s)] else []
    {
      hide Frame, Unframe, ToWire, FromWire, NormSpec, Decoded;
      var stored := StoreGrowing(v);
      var encoded: bytes := if stored.Success? then stored.value else [];
      var buf := new byte[|encoded|](i requires 0 <= i < |encoded| => encoded[i]);
      assert buf[..] == encoded && buf[..buf.Length] == encoded;
      if stored.Success? {
        DecodeEncoded(s, v);
      } else {
        NothingDecodes();
      }
      AddEncoded(buf, buf.Length);
    }
  }

  lemma NothingDecodes()
    ensures Decoded([]) == Failure(())
  {
  }
}
