/**
 * A heap object of the simulated collector (9.GC/GCObject.java).
 *
 * Java objects are modelled by identity: an object is named by an `ObjRef`
 * and its fields are a `GCObject` value stored in the collector's heap map
 * (see SimpleGC).
 */
module GCObjects {

  /** A reference: Java's `null`, or the object allocated with that serial number. */
  datatype ObjRef = Null | Obj(serial: nat)

  /** The fields of one object: its name, the objects it refers to (in order,
    * duplicates and nulls allowed), the mark bit and the number of
    * collections it has survived in the young generation. */
  datatype GCObject = GCObject(name: string, references: seq<ObjRef>, marked: bool, age: int)

  /** A freshly constructed object: no references, unmarked, age zero. */
  function NewObject(name: string): (o: GCObject)
    ensures o.name == name && o.references == []
    ensures !o.marked && o.age == 0
  {
    GCObject(name, [], false, 0)
  }

  /** `addReference`: the reference is appended after the existing ones,
    * even when the object already refers to it; nothing else changes. */
  function WithReference(o: GCObject, ref: ObjRef): (o': GCObject)
    ensures |o'.references| == |o.references| + 1
    ensures o'.references[..|o.references|] == o.references
    ensures o'.references[|o.references|] == ref
    ensures o'.name == o.name && o'.marked == o.marked && o'.age == o.age
  {
    o.(references := o.references + [ref])
  }

  /** Adding the same reference twice leaves it in the list twice. */
  lemma AddingTwiceKeepsBoth(o: GCObject, ref: ObjRef)
    ensures multiset(WithReference(WithReference(o, ref), ref).references)[ref]
         == multiset(o.references)[ref] + 2
  {
    var once := WithReference(o, ref);
    assert once.references == o.references + [ref];
    assert WithReference(once, ref).references == o.references + [ref] + [ref];
  }

  /** `toString` prints an object as its name. */
  function Describe(o: GCObject): (s: string)
    ensures s == o.name
  {
    o.name
  }
}
