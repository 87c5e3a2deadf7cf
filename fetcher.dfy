/** The fetcher `usuariosGet`: the upstream stages that can fail, and the
    loop that converts and deduplicates the decoded results. */
module Fetcher {
  import opened Wrappers
  import opened Usuarios

  /** The error returned when a stage fails; each wraps the cause reported
      by the library call. */
  datatype FetchError =
    | UpstreamUnavailable(cause: string)
    | ReadError(cause: string)
    | DecodeError(cause: string)
  {
    /** The error text: a fixed prefix per stage followed by the cause. */
    function Message(): string {
      match this
      case UpstreamUnavailable(c) => "error al obtener datos de la API: " + c
      case ReadError(c) => "error al leer la respuesta: " + c
      case DecodeError(c) => "error al decodificar JSON: " + c
    }
  }

  /** Distinct errors have distinct texts: the text tells which stage
      failed and with what cause. */
  lemma MessageInjective(e1: FetchError, e2: FetchError)
    ensures e1.Message() == e2.Message() ==> e1 == e2
  {
    var m1, m2 := e1.Message(), e2.Message();
    if m1 == m2 {
      // The three prefixes first differ at index 9: 'o', 'l', 'd'.
      assert m1[9] == match e1
        case UpstreamUnavailable(_) => 'o'
        case ReadError(_) => 'l'
        case DecodeError(_) => 'd';
      assert m2[9] == match e2
        case UpstreamUnavailable(_) => 'o'
        case ReadError(_) => 'l'
        case DecodeError(_) => 'd';
      var n := |m1| - |e1.cause|;
      assert e1.cause == m1[n..];
      assert e2.cause == m2[n..];
    }
  }

  /** What the three library calls report for one fetch: the transport
      error of the GET, if any; the error of reading the body, if any; and
      what decoding the body gives. */
  datatype Upstream = Upstream(
    transportError: Option<string>,
    readError: Option<string>,
    decoded: Result<RandomUserResponse, string>)

  /** Every stage succeeded. */
  predicate Succeeds(up: Upstream) {
    up.transportError.None? && up.readError.None? && up.decoded.Success?
  }

  /** The deduplication loop: walks the entries in order, keeping a seen-map
      from UUID to `true`, and appends a record only for a UUID not yet in
      the map. */
  method Deduplicate(resultados: seq<Resultado>) returns (usuarios: seq<Usuario>)
    ensures usuarios == Dedup(resultados)
    ensures Distinct(usuarios)
    ensures UuidsOf(usuarios) == InputUuids(resultados)
    ensures |usuarios| == |InputUuids(resultados)|
    ensures |usuarios| <= |resultados|
    ensures resultados == [] ==> usuarios == []
    ensures FromFirstEntries(resultados, usuarios)
  {
    usuarios := [];
    var usuariosUnicos: map<string, bool> := map[];
    var i := 0;
    while i < |resultados|
      invariant 0 <= i <= |resultados|
      invariant usuarios == Dedup(resultados[..i])
      invariant usuariosUnicos.Keys == UuidsOf(usuarios)
      invariant forall k :: k in usuariosUnicos ==> usuariosUnicos[k]
    {
      var resultado := resultados[i];
      var uuid := resultado.login.uuid;
      assert resultados[..i + 1][..i] == resultados[..i];
      assert resultados[..i + 1][i] == resultado;
      if uuid !in usuariosUnicos {
        var user := Usuario(
          uuid,
          resultado.name.first,
          resultado.name.last,
          resultado.email,
          resultado.location.city,
          resultado.location.country);
        usuarios := usuarios + [user];
        usuariosUnicos := usuariosUnicos[uuid := true];
      }
      i := i + 1;
    }
    assert resultados[..i] == resultados;
    DedupDistinct(resultados);
    DedupUuids(resultados);
    DedupLength(resultados);
    DedupCopiesFirstEntry(resultados);
  }

  /** The whole fetch: the first failing stage decides the error and no list
      is returned; otherwise the deduplicated list (possibly empty) is. */
  method UsuariosGet(up: Upstream) returns (r: Result<seq<Usuario>, FetchError>)
    ensures up.transportError.Some? ==>
      r == Failure(UpstreamUnavailable(up.transportError.value))
    ensures up.transportError.None? && up.readError.Some? ==>
      r == Failure(ReadError(up.readError.value))
    ensures up.transportError.None? && up.readError.None? && up.decoded.Failure? ==>
      r == Failure(DecodeError(up.decoded.error))
    ensures Succeeds(up) ==> r == Success(Dedup(up.decoded.value.resultados))
    ensures r.Success? <==> Succeeds(up)
  {
    if up.transportError.Some? {
      return Failure(UpstreamUnavailable(up.transportError.value));
    }
    if up.readError.Some? {
      return Failure(ReadError(up.readError.value));
    }
    if up.decoded.Failure? {
      return Failure(DecodeError(up.decoded.error));
    }
    var usuarios := Deduplicate(up.decoded.value.resultados);
    return Success(usuarios);
  }
}
