/** The records of the user service and the specification of its
    deduplication step: the upstream result entries, the flat `Usuario`
    record built from each, and `Dedup`, the list that keeps the first entry
    for every login UUID, together with the properties proved about it. */
module Usuarios {

  /** The flat record returned to clients. */
  datatype Usuario = Usuario(
    uuid: string,
    nombre: string,
    apellido: string,
    email: string,
    ciudad: string,
    pais: string)

  /** The nested sub-objects of one upstream result entry. */
  datatype Login = Login(uuid: string)
  datatype Name = Name(first: string, last: string)
  datatype Location = Location(city: string, country: string)

  /** One entry of the upstream `results` list. */
  datatype Resultado = Resultado(login: Login, name: Name, email: string, location: Location)

  /** The decoded upstream payload: its `results` list, in upstream order. */
  datatype RandomUserResponse = RandomUserResponse(resultados: seq<Resultado>)

  /** The identity of an entry: its login UUID. */
  function Key(r: Resultado): string {
    r.login.uuid
  }

  /** `u` carries, field by field, the values of entry `r`. */
  predicate CopiedFrom(u: Usuario, r: Resultado) {
    && u.uuid == r.login.uuid
    && u.nombre == r.name.first
    && u.apellido == r.name.last
    && u.email == r.email
    && u.ciudad == r.location.city
    && u.pais == r.location.country
  }

  /** The record built for an entry that is kept. */
  function ToUsuario(r: Resultado): (u: Usuario)
    ensures CopiedFrom(u, r)
  {
    Usuario(r.login.uuid, r.name.first, r.name.last, r.email, r.location.city, r.location.country)
  }

  /** The UUIDs of a list of records. */
  function UuidsOf(us: seq<Usuario>): set<string> {
    set u | u in us :: u.uuid
  }

  /** The UUIDs that occur in a list of entries. */
  function InputUuids(rs: seq<Resultado>): set<string> {
    set r | r in rs :: Key(r)
  }

  /** No two records of `us` share a UUID. */
  predicate Distinct(us: seq<Usuario>) {
    forall i, j :: 0 <= i < j < |us| ==> us[i].uuid != us[j].uuid
  }

  /** The deduplicated list: entries are taken in order and an entry is
      appended only when no record with its UUID has been appended before. */
  function Dedup(rs: seq<Resultado>): seq<Usuario>
    decreases |rs|
  {
    if rs == [] then []
    else
      var prev := Dedup(rs[..|rs| - 1]);
      var last := rs[|rs| - 1];
      if Key(last) in UuidsOf(prev) then prev else prev + [ToUsuario(last)]
  }

  // ---------------------------------------------------------------------
  // An independent reference: the positions of first occurrences.

  /** Entry `i` is the first entry carrying its UUID. */
  ghost predicate IsFirst(rs: seq<Resultado>, i: nat)
    requires i < |rs|
  {
    forall j :: 0 <= j < i ==> Key(rs[j]) != Key(rs[i])
  }

  /** The positions below `n` that are first occurrences, in increasing order. */
  ghost function FirstIndices(rs: seq<Resultado>, n: nat): (ps: seq<nat>)
    requires n <= |rs|
    ensures forall k :: 0 <= k < |ps| ==> ps[k] < n
  {
    if n == 0 then []
    else FirstIndices(rs, n - 1) + (if IsFirst(rs, n - 1) then [n - 1] else [])
  }

  /** The first-occurrence positions are strictly increasing and hold a
      position exactly when it is a first occurrence. */
  lemma {:induction false} FirstIndicesExact(rs: seq<Resultado>, n: nat)
    requires n <= |rs|
    ensures forall k, l :: 0 <= k < l < |FirstIndices(rs, n)| ==>
      FirstIndices(rs, n)[k] < FirstIndices(rs, n)[l]
    ensures forall i :: 0 <= i < n ==> (i in FirstIndices(rs, n) <==> IsFirst(rs, i))
  {
    if n > 0 {
      FirstIndicesExact(rs, n - 1);
    }
  }

  /** `u` is copied field by field from an entry of `rs` that is the first
      to carry its UUID. */
  ghost predicate FromFirstEntry(rs: seq<Resultado>, u: Usuario) {
    exists i: nat :: i < |rs| && IsFirst(rs, i) && CopiedFrom(u, rs[i])
  }

  /** Every record of `us` is copied field by field from an entry of `rs`
      that is the first to carry its UUID. */
  ghost predicate FromFirstEntries(rs: seq<Resultado>, us: seq<Usuario>) {
    forall k :: 0 <= k < |us| ==> FromFirstEntry(rs, us[k])
  }

  /** The records built from the entries at positions `ps`, in that order. */
  function Project(rs: seq<Resultado>, ps: seq<nat>): seq<Usuario>
    requires forall k :: 0 <= k < |ps| ==> ps[k] < |rs|
  {
    seq(|ps|, k requires 0 <= k < |ps| => ToUsuario(rs[ps[k]]))
  }

  // ---------------------------------------------------------------------
  // Properties of Dedup.

  /** Every record of the output comes from some entry of the input. */
  lemma {:induction false} DedupFromInput(rs: seq<Resultado>)
    ensures forall u :: u in Dedup(rs) ==> exists r :: r in rs && u == ToUsuario(r)
  {
    if rs != [] {
      var init := rs[..|rs| - 1];
      DedupFromInput(init);
      forall u | u in Dedup(rs) ensures exists r :: r in rs && u == ToUsuario(r) {
        if u in Dedup(init) {
          var r :| r in init && u == ToUsuario(r);
          assert r in rs;
        } else {
          assert u == ToUsuario(rs[|rs| - 1]);
        }
      }
    }
  }

  /** The output never holds two records with the same UUID. */
  lemma {:induction false} DedupDistinct(rs: seq<Resultado>)
    ensures Distinct(Dedup(rs))
  {
    if rs != [] {
      var init := rs[..|rs| - 1];
      var last := rs[|rs| - 1];
      var prev := Dedup(init);
      DedupDistinct(init);
      if Key(last) !in UuidsOf(prev) {
        var out := prev + [ToUsuario(last)];
        forall i, j | 0 <= i < j < |out| ensures out[i].uuid != out[j].uuid {
          if j == |prev| {
            assert prev[i] in prev;
          }
        }
      }
    }
  }

  /** The UUIDs of the output are exactly the UUIDs of the input: no key is
      lost and none is invented. */
  lemma {:induction false} DedupUuids(rs: seq<Resultado>)
    ensures UuidsOf(Dedup(rs)) == InputUuids(rs)
  {
    if rs != [] {
      var init := rs[..|rs| - 1];
      var last := rs[|rs| - 1];
      var prev := Dedup(init);
      DedupUuids(init);
      assert rs == init + [last];
      assert InputUuids(rs) == InputUuids(init) + {Key(last)};
      if Key(last) !in UuidsOf(prev) {
        assert UuidsOf(prev + [ToUsuario(last)]) == UuidsOf(prev) + {Key(last)};
      }
    }
  }

  /** A list of records without repeated UUIDs has one UUID per record. */
  lemma {:induction false} DistinctCardinality(us: seq<Usuario>)
    requires Distinct(us)
    ensures |UuidsOf(us)| == |us|
  {
    if us != [] {
      var init := us[..|us| - 1];
      var last := us[|us| - 1];
      assert us == init + [last];
      assert Distinct(init);
      DistinctCardinality(init);
      assert UuidsOf(us) == UuidsOf(init) + {last.uuid};
      assert last.uuid !in UuidsOf(init) by {
        forall u | u in init ensures u.uuid != last.uuid {
          var i :| 0 <= i < |init| && init[i] == u;
          assert us[i] == u;
        }
      }
    }
  }

  /** A list of entries has at most as many UUIDs as entries. */
  lemma {:induction false} InputUuidsBound(rs: seq<Resultado>)
    ensures |InputUuids(rs)| <= |rs|
  {
    if rs != [] {
      var init := rs[..|rs| - 1];
      assert rs == init + [rs[|rs| - 1]];
      assert InputUuids(rs) == InputUuids(init) + {Key(rs[|rs| - 1])};
      InputUuidsBound(init);
    }
  }

  /** The output has one record per distinct input UUID, hence no more
      records than there are entries. */
  lemma DedupLength(rs: seq<Resultado>)
    ensures |Dedup(rs)| == |InputUuids(rs)|
    ensures |Dedup(rs)| <= |rs|
  {
    DedupDistinct(rs);
    DedupUuids(rs);
    DistinctCardinality(Dedup(rs));
    InputUuidsBound(rs);
  }

  /** An entry's UUID is already among the kept records exactly when an
      earlier entry carries it. */
  lemma SeenIffNotFirst(rs: seq<Resultado>, n: nat)
    requires n < |rs|
    ensures Key(rs[n]) in UuidsOf(Dedup(rs[..n])) <==> !IsFirst(rs, n)
  {
    DedupUuids(rs[..n]);
    if !IsFirst(rs, n) {
      var j :| 0 <= j < n && Key(rs[j]) == Key(rs[n]);
      assert rs[..n][j] == rs[j];
    }
  }

  /** Projecting one more position appends one record. */
  lemma ProjectSnoc(rs: seq<Resultado>, ps: seq<nat>, p: nat)
    requires forall k :: 0 <= k < |ps| ==> ps[k] < |rs|
    requires p < |rs|
    ensures Project(rs, ps + [p]) == Project(rs, ps) + [ToUsuario(rs[p])]
  {
  }

  /** One step of Dedup over a prefix, stated with first occurrences: the
      next entry is appended exactly when it is the first with its UUID. */
  lemma DedupPrefixStep(rs: seq<Resultado>, n: nat)
    requires 0 < n <= |rs|
    ensures Dedup(rs[..n]) ==
      if IsFirst(rs, n - 1) then Dedup(rs[..n - 1]) + [ToUsuario(rs[n - 1])]
      else Dedup(rs[..n - 1])
  {
    var prefix := rs[..n];
    assert prefix[..n - 1] == rs[..n - 1];
    assert prefix[n - 1] == rs[n - 1];
    SeenIffNotFirst(rs, n - 1);
  }

  /** Order of first occurrence: the output of a prefix is the list of
      records built from the first-occurrence positions of that prefix. */
  lemma {:induction false} DedupPrefixIsProjection(rs: seq<Resultado>, n: nat)
    requires n <= |rs|
    ensures Dedup(rs[..n]) == Project(rs, FirstIndices(rs, n))
  {
    if n > 0 {
      DedupPrefixIsProjection(rs, n - 1);
      DedupPrefixStep(rs, n);
      var ps := FirstIndices(rs, n - 1);
      if IsFirst(rs, n - 1) {
        assert FirstIndices(rs, n) == ps + [n - 1];
        ProjectSnoc(rs, ps, n - 1);
      } else {
        assert FirstIndices(rs, n) == ps;
      }
    }
  }

  /** The output is the subsequence of converted entries taken at the
      first-occurrence positions, in input order. */
  lemma DedupIsFirstOccurrences(rs: seq<Resultado>)
    ensures Dedup(rs) == Project(rs, FirstIndices(rs, |rs|))
  {
    DedupPrefixIsProjection(rs, |rs|);
    assert rs[..|rs|] == rs;
  }

  /** Records built at first-occurrence positions are copied from first
      entries. */
  lemma ProjectFromFirstEntries(rs: seq<Resultado>, ps: seq<nat>)
    requires forall k :: 0 <= k < |ps| ==> ps[k] < |rs| && IsFirst(rs, ps[k])
    ensures FromFirstEntries(rs, Project(rs, ps))
  {
  }

  /** Every output record is copied field by field from the first entry
      that carries its UUID. */
  lemma DedupCopiesFirstEntry(rs: seq<Resultado>)
    ensures FromFirstEntries(rs, Dedup(rs))
  {
    DedupIsFirstOccurrences(rs);
    var ps := FirstIndices(rs, |rs|);
    FirstIndicesExact(rs, |rs|);
    forall k | 0 <= k < |ps| ensures ps[k] < |rs| && IsFirst(rs, ps[k]) {
      assert ps[k] in ps;
    }
    ProjectFromFirstEntries(rs, ps);
  }

  /** The first entry carrying a UUID is kept, field by field, and it is the
      only record with that UUID: later entries with the same UUID are
      ignored. */
  lemma FirstOccurrenceWins(rs: seq<Resultado>, i: nat)
    requires i < |rs|
    requires IsFirst(rs, i)
    ensures exists k :: 0 <= k < |Dedup(rs)| && CopiedFrom(Dedup(rs)[k], rs[i])
    ensures forall u :: u in Dedup(rs) && u.uuid == Key(rs[i]) ==> u == ToUsuario(rs[i])
  {
    DedupIsFirstOccurrences(rs);
    var ps := FirstIndices(rs, |rs|);
    FirstIndicesExact(rs, |rs|);
    var out := Dedup(rs);
    var k :| 0 <= k < |ps| && ps[k] == i;
    assert out[k] == ToUsuario(rs[i]);
    forall u | u in out && u.uuid == Key(rs[i]) ensures u == ToUsuario(rs[i]) {
      var l :| 0 <= l < |out| && out[l] == u;
      var p := ps[l];
      assert Key(rs[p]) == Key(rs[i]);
      assert IsFirst(rs, p);
      assert p == i;
    }
  }

  /** Two entries with different UUIDs both survive, in their order. */
  lemma TwoDistinctEntries(a: Resultado, b: Resultado)
    requires Key(a) != Key(b)
    ensures Dedup([a, b]) == [ToUsuario(a), ToUsuario(b)]
  {
    assert [a, b][..1] == [a];
    assert Dedup([a]) == [ToUsuario(a)];
  }

  /** Of two entries with the same UUID only the first survives. */
  lemma TwoDuplicateEntries(a: Resultado, b: Resultado)
    requires Key(a) == Key(b)
    ensures Dedup([a, b]) == [ToUsuario(a)]
  {
    assert [a, b][..1] == [a];
    assert Dedup([a]) == [ToUsuario(a)];
  }
}
