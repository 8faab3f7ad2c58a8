/** A slotted page as a value: a run of slots and the space its record area takes. */
module SlottedModel {
  import opened Core

  const PAGE_SIZE: nat := 4096
  const HEADER_SIZE: nat := 34
  const SLOT_SIZE: nat := 6

  datatype Slot = Live(record: Bytes) | Dead

  /** `freeEnd` is where packed records begin; the slot directory ends at `FreeStart`. */
  datatype Slotted = Slotted(freeEnd: nat, slots: seq<Slot>) {

    function FreeStart(): nat {
      HEADER_SIZE + SLOT_SIZE * |slots|
    }

    function FreeSpace(): nat
      requires Sound()
    {
      freeEnd - FreeStart()
    }

    /** The directory does not run into the records. */
    predicate Sound() {
      FreeStart() <= freeEnd <= PAGE_SIZE
    }

    /** The record a slot holds, when it is live. */
    function Record(id: SlotId): Option<Bytes>
      requires id < |slots|
    {
      match slots[id]
      case Live(record) => Some(record)
      case Dead => None
    }
  }

  const EMPTY: Slotted := Slotted(PAGE_SIZE, [])

  /** Lowest dead slot, or the slot count. */
  function FirstDead(slots: seq<Slot>): (i: nat)
    ensures i <= |slots|
    ensures forall j :: 0 <= j < i ==> slots[j].Live?
    ensures i < |slots| ==> slots[i].Dead?
  {
    if slots == [] || slots[0].Dead? then 0 else 1 + FirstDead(slots[1..])
  }

  function Needed(p: Slotted, record: Bytes): nat {
    |record| + if FirstDead(p.slots) < |p.slots| then 0 else SLOT_SIZE
  }

  predicate HasRoom(p: Slotted, record: Bytes)
    requires p.Sound()
  {
    Needed(p, record) <= p.FreeSpace()
  }

  /** Store `record` in the lowest dead slot, else in a fresh one. */
  function Inserted(p: Slotted, record: Bytes): (q: Slotted)
    requires p.Sound() && HasRoom(p, record)
    ensures q.Sound()
  {
    var i := FirstDead(p.slots);
    Slotted(p.freeEnd - |record|, if i < |p.slots| then p.slots[i := Live(record)] else p.slots + [Live(record)])
  }

  /** `after` is `before` with `record` in slot `id`: the lowest dead slot, or a new last one when all are live. */
  ghost predicate PutIn(before: seq<Slot>, after: seq<Slot>, record: Bytes, id: SlotId) {
    && id <= |before| && (forall j :: 0 <= j < id ==> before[j].Live?) && (id < |before| ==> before[id] == Dead)
    && |after| == (if id < |before| then |before| else |before| + 1)
    && after[id] == Live(record) && forall j :: 0 <= j < |before| && j != id ==> after[j] == before[j]
  }

  /** A record fits when its bytes, and those of a new slot if it needs one, lie between the directory and the records. */
  lemma RoomMeans(p: Slotted, record: Bytes)
    requires p.Sound()
    ensures HasRoom(p, record) <==>
      HEADER_SIZE + SLOT_SIZE * |p.slots| + |record| + (if Dead in p.slots then 0 else SLOT_SIZE) <= p.freeEnd
    ensures HasRoom(p, record) ==> PutIn(p.slots, Inserted(p, record).slots, record, FirstDead(p.slots))
  {
    var i := FirstDead(p.slots);
    assert i < |p.slots| ==> p.slots[i] == Dead;
  }

  function Deleted(p: Slotted, id: SlotId): (q: Slotted)
    requires id < |p.slots|
  {
    p.(slots := p.slots[id := Dead])
  }

  /** Bytes the live records take. */
  function LiveBytes(slots: seq<Slot>): nat {
    if slots == [] then 0 else (if slots[0].Live? then |slots[0].record| else 0) + LiveBytes(slots[1..])
  }

  function Compacted(p: Slotted): Slotted
    requires LiveBytes(p.slots) <= PAGE_SIZE
  {
    Slotted(PAGE_SIZE - LiveBytes(p.slots), p.slots)
  }
}
