/** The objects that peers exchange, and what a well-formed replica is. */
module MeshObjects {
  import opened Options
  import opened TextOrder
  import opened VersionVectors

  /** One logical object.  Payloads are opaque bytes, one `char` per byte. */
  datatype MeshObject = MeshObject(
    id: Id,
    kind: string,
    payload: string,
    vector: VersionVector,
    tombstone: bool,
    supersededBy: Option<Id>)

  type Replica = map<Id, MeshObject>

  /** The part of an object that its leaf hash covers: neither the vector nor the supersession edge. */
  datatype Content = Content(id: Id, kind: string, tombstone: bool, payload: string)

  function ContentOf(o: MeshObject): Content {
    Content(o.id, o.kind, o.tombstone, o.payload)
  }

  ghost predicate WellKeyed(m: Replica) {
    forall k | k in m :: m[k].id == k
  }

  ghost predicate NonNegative(m: Replica) {
    forall k | k in m :: m[k].vector.NonNegative()
  }

  ghost predicate Positive(m: Replica) {
    forall k | k in m :: m[k].vector.Positive()
  }

  /** No object claims to be superseded by itself. */
  ghost predicate NoSelfSupersession(m: Replica) {
    forall k | k in m :: m[k].supersededBy != Some(k)
  }

  /** Objects are stored under their own ids, and none supersedes itself. */
  ghost predicate Consistent(m: Replica) {
    WellKeyed(m) && NoSelfSupersession(m)
  }

  /** A replica as every step of the protocol keeps it. */
  ghost predicate WellFormed(m: Replica) {
    Consistent(m) && NonNegative(m)
  }

  ghost predicate KindsAgree(a: Replica, b: Replica) {
    forall k | k in a && k in b :: a[k].kind == b[k].kind
  }

  /** The same ids with the same hashed content. */
  ghost predicate SameContents(a: Replica, b: Replica) {
    a.Keys == b.Keys && forall k | k in a :: ContentOf(a[k]) == ContentOf(b[k])
  }
}
