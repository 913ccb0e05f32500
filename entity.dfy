/**
 * Entity helpers: the serial-id generator shared by every entity component,
 * and the pooled `EntityData` record.
 */
module Entities {

  // ---------------------------------------------------------------------------
  // 32-bit signed integers

  const IntMin: int := -0x8000_0000
  const IntMax: int := 0x7fff_ffff

  predicate InInt32(x: int) {
    IntMin <= x <= IntMax
  }

  /** Reference definition of `int` arithmetic in an unchecked context: reduce modulo 2^32 into range. */
  function Wrap32(x: int): (r: int)
    ensures InInt32(r)
  {
    (x - IntMin) % 0x1_0000_0000 + IntMin
  }

  /** `--s` on an `int`: one less, except that the least value wraps to the greatest. */
  function Decrement(s: int): (r: int)
    requires InInt32(s)
    ensures InInt32(r)
    ensures r == Wrap32(s - 1)
  {
    if s == IntMin then IntMax else s - 1
  }

  /** The counter after `n` calls, starting from 0: also the id the `n`-th call returns. */
  function SerialAfter(n: nat): (s: int)
    ensures InInt32(s)
  {
    if n == 0 then 0 else Decrement(SerialAfter(n - 1))
  }

  /** Until the counter wraps, the `n`-th id is `-n`. */
  lemma {:induction false} SerialAfterValue(n: nat)
    requires n <= 0x8000_0000
    ensures SerialAfter(n) == -(n as int)
  {
    if n > 0 {
      SerialAfterValue(n - 1);
    }
  }

  /** The first id is -1, and each id is one less than the one before, up to the 2^31-th call. */
  lemma FirstSerials(n: nat)
    requires 1 <= n < 0x8000_0000
    ensures SerialAfter(1) == -1
    ensures SerialAfter(n + 1) == SerialAfter(n) - 1
  {
    SerialAfterValue(1);
    SerialAfterValue(n);
    SerialAfterValue(n + 1);
  }

  /** The first 2^31 ids are negative and pairwise distinct. */
  lemma SerialsDistinct(i: nat, j: nat)
    requires 1 <= i < j <= 0x8000_0000
    ensures SerialAfter(i) < 0 && SerialAfter(j) < 0
    ensures SerialAfter(i) != SerialAfter(j)
  {
    SerialAfterValue(i);
    SerialAfterValue(j);
  }

  /** The call after the 2^31-th wraps to the greatest `int`: a positive id. */
  lemma SerialWraps()
    ensures SerialAfter(0x8000_0001) == IntMax
  {
    SerialAfterValue(0x8000_0000);
  }

  /** An opaque stand-in for the `EntityComponent` the generator extends; it is never read. */
  class EntityComponent {
  }

  /** The static state of `EntityExtension`: the counter `s_SerialId`. */
  class EntityExtension {
    var serialId: int
    /** The ids handed out so far, oldest first. */
    ghost var issued: seq<int>

    ghost predicate Valid()
      reads this
    {
      && serialId == SerialAfter(|issued|)
      && (forall i :: 0 <= i < |issued| ==> issued[i] == SerialAfter(i + 1))
    }

    /** The static initialiser: the counter starts at 0. */
    constructor ()
      ensures Valid() && serialId == 0 && issued == []
    {
      serialId := 0;
      issued := [];
    }

    /**
     * `GenerateSerialId`: decrements the shared counter and returns its new
     * value. The component it is called on plays no part.
     */
    method GenerateSerialId(entityComponent: EntityComponent?) returns (id: int)
      requires Valid()
      modifies this
      ensures Valid()
      ensures serialId == Decrement(old(serialId)) && id == serialId
      ensures issued == old(issued) + [id]
      ensures |issued| <= 0x8000_0000 ==> id < 0 && id !in old(issued)
    {
      serialId := Decrement(serialId);
      id := serialId;
      issued := issued + [id];
      if |issued| <= 0x8000_0000 {
        forall i | 0 <= i < |old(issued)|
          ensures old(issued)[i] != id
        {
          SerialsDistinct(i + 1, |issued|);
        }
        SerialAfterValue(|issued|);
      }
    }
  }

  // ---------------------------------------------------------------------------
  // EntityData

  /** `Vector3`; its components are only stored, never computed with. */
  datatype Vector3 = Vector3(x: real, y: real, z: real)

  /** `Quaternion`; its components are only stored, never computed with. */
  datatype Quaternion = Quaternion(x: real, y: real, z: real, w: real)

  const Zero: Vector3 := Vector3(0.0, 0.0, 0.0)
  const Identity: Quaternion := Quaternion(0.0, 0.0, 0.0, 1.0)

  /** The four serialized fields of an `EntityData`. */
  datatype EntityFields = EntityFields(id: int, typeId: int, position: Vector3, rotation: Quaternion)

  /** The state a new `EntityData` starts in, and the one `Clear` restores. */
  const Initial: EntityFields := EntityFields(0, 0, Zero, Identity)

  class EntityData {
    var id: int
    var typeId: int
    var position: Vector3
    var rotation: Quaternion

    function Fields(): EntityFields
      reads this
    {
      EntityFields(id, typeId, position, rotation)
    }

    constructor ()
      ensures Fields() == Initial
    {
      id := 0;
      typeId := 0;
      position := Zero;
      rotation := Identity;
    }

    /** `Fill`: sets the id and the table id; position and rotation stay as they were. */
    method Fill(newId: int, newTypeId: int)
      modifies this
      ensures Fields() == old(Fields()).(id := newId, typeId := newTypeId)
    {
      id := newId;
      typeId := newTypeId;
    }

    /** `Clear`: back to the state of a new instance, whatever came before. */
    method Clear()
      modifies this
      ensures Fields() == Initial
    {
      id := 0;
      typeId := 0;
      position := Zero;
      rotation := Identity;
    }

    /** The `Position` setter. */
    method SetPosition(value: Vector3)
      modifies this
      ensures Fields() == old(Fields()).(position := value)
    {
      position := value;
    }

    /** The `Rotation` setter. */
    method SetRotation(value: Quaternion)
      modifies this
      ensures Fields() == old(Fields()).(rotation := value)
    {
      rotation := value;
    }
  }

  /** A recycled record, filled again, is indistinguishable from a new one filled the same way. */
  method ReuseAfterClear(used: EntityData, newId: int, newTypeId: int) returns (renewed: EntityData)
    modifies used
    ensures renewed.Fields() == used.Fields() == Initial.(id := newId, typeId := newTypeId)
  {
    used.Clear();
    used.Fill(newId, newTypeId);
    renewed := new EntityData();
    renewed.Fill(newId, newTypeId);
  }
}
