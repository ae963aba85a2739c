/** The records shared by the components: a participant, a group and the tab names. */
module Types {

  /** An opaque identifier; the application draws these at random. */
  type Id = string

  datatype Participant = Participant(id: Id, name: string)

  datatype Group = Group(id: Id, name: string, members: seq<Participant>)

  datatype Tab = List | Draw | Grouping

  /** A value that may be absent (`null` in the application). */
  datatype Option<T> = None | Some(value: T)

  /** The names of a list of participants, in order. */
  function Names(ps: seq<Participant>): (r: seq<string>)
    ensures |r| == |ps|
    ensures forall i :: 0 <= i < |ps| ==> r[i] == ps[i].name
  {
    if ps == [] then [] else [ps[0].name] + Names(ps[1..])
  }

  /** The set of ids occurring in a list of participants. */
  function IdSet(ps: seq<Participant>): set<Id>
  {
    set p | p in ps :: p.id
  }

  /** No two positions of the list carry the same id. */
  predicate DistinctIds(ps: seq<Participant>)
  {
    forall i, j :: 0 <= i < j < |ps| ==> ps[i].id != ps[j].id
  }
}
