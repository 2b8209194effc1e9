/** The tracking allocator of gballoc.c: a linked list of live blocks and the totals kept beside it. */
module GbAlloc {
  import opened AssocLists
  import opened Lists
  import opened Words

  // What a 64-bit sum or difference comes to.
  function Wrap(x: int): nat {
    x % TWO_64
  }

  // A tracked block: its size under its address. A pointer is its address; NULL is 0.
  type Block = Entry<nat, nat>

  // The tracked blocks, latest first, with totalSize, maxSize and g_allocations.
  datatype Accounts = Accounts(blocks: seq<Block>, total: nat, max: nat, count: nat)

  // ----- What each call does to the accounts -----

  function Max(a: nat, b: nat): nat {
    if a < b then b else a
  }

  function Charge(a: Accounts, size: nat): Accounts {
    var total := Wrap(a.total + size);
    a.(total := total, max := Max(a.max, total), count := Wrap(a.count + 1))
  }

  function Track(a: Accounts, ptr: nat, size: nat): Accounts {
    Charge(a.(blocks := [Entry(ptr, size)] + a.blocks), size)
  }

  function Retrack(a: Accounts, i: nat, ptr: nat, size: nat): Accounts
    requires i < |a.blocks|
  {
    Charge(a.(blocks := a.blocks[i := Entry(ptr, size)], total := Wrap(a.total - a.blocks[i].value)), size)
  }

  function Untrack(a: Accounts, i: nat): Accounts
    requires i < |a.blocks|
  {
    a.(blocks := Drop(a.blocks, i), total := Wrap(a.total - a.blocks[i].value))
  }

  // A request with the answers of the C library: `node` tells whether the tracking record could be allocated,
  // `reply` is the pointer the library returns, 0 when it fails.
  datatype Op =
    | Malloc(size: nat, node: bool, reply: nat)
    | Calloc(nmemb: nat, size: nat, node: bool, reply: nat)
    | Realloc(ptr: nat, size: nat, node: bool, reply: nat)
    | Free(ptr: nat)
    | ResetMetrics

  function Apply(a: Accounts, op: Op): Accounts {
    match op
    case Malloc(size, node, reply) => if node && reply != 0 then Track(a, reply, size) else a
    case Calloc(nmemb, size, node, reply) =>
      if node && reply != 0 then Track(a, reply, Wrap(nmemb * size)) else a
    case Realloc(ptr, size, node, reply) =>
      if ptr == 0 then (if node && reply != 0 then Track(a, reply, size) else a)
      else
        var i := IndexOf(a.blocks, ptr);
        if i < |a.blocks| && reply != 0 then Retrack(a, i, reply, size) else a
    case Free(ptr) =>
      var i := IndexOf(a.blocks, ptr);
      if i < |a.blocks| then Untrack(a, i) else a
    case ResetMetrics => a.(total := 0, max := 0, count := 0)
  }

  // ----- The module -----

  class Allocation {
    var size: nat
    var ptr: nat
    var next: Allocation?

    constructor (ptr: nat, size: nat, next: Allocation?)
      ensures this.ptr == ptr && this.size == size && this.next == next
    {
      this.ptr, this.size, this.next := ptr, size, next;
    }
  }

  ghost function NodeAt(nodes: seq<Allocation>, i: nat): Allocation? {
    if i < |nodes| then nodes[i] else null
  }

  ghost function BlocksOf(nodes: seq<Allocation>): (blocks: seq<Block>)
    reads nodes
    ensures |blocks| == |nodes|
    ensures forall i | 0 <= i < |nodes| :: blocks[i] == Entry(nodes[i].ptr, nodes[i].size)
  {
    seq(|nodes|, i requires 0 <= i < |nodes| reads nodes => Entry(nodes[i].ptr, nodes[i].size))
  }

  ghost predicate ListOf(head: Allocation?, nodes: seq<Allocation>)
    reads nodes
  {
    && head == NodeAt(nodes, 0)
    && (forall i | 0 <= i < |nodes| :: nodes[i].next == NodeAt(nodes, i + 1))
    && (forall i, j | 0 <= i < j < |nodes| :: nodes[i] != nodes[j])
  }

  // Joining the neighbours of a record takes it off the list.
  lemma ListWithout(head: Allocation?, nodes: seq<Allocation>, i: nat)
    requires i < |nodes| && forall j, k | 0 <= j < k < |nodes| :: nodes[j] != nodes[k]
    requires head == if i == 0 then NodeAt(nodes, 1) else nodes[0]
    requires forall j | 0 <= j < |nodes| && j != i - 1 :: nodes[j].next == NodeAt(nodes, j + 1)
    requires i > 0 ==> nodes[i - 1].next == NodeAt(nodes, i + 1)
    ensures ListOf(head, Drop(nodes, i))
  {
    DropAt(nodes, i);
    hide Drop;
  }

  lemma BlocksWithout(nodes: seq<Allocation>, i: nat)
    requires i < |nodes|
    ensures BlocksOf(Drop(nodes, i)) == Drop(BlocksOf(nodes), i)
  {
    DropAt(nodes, i);
    DropAt(BlocksOf(nodes), i);
    hide Drop, BlocksOf;
  }

  // The file's static variables between gballoc_init and gballoc_deinit.
  class Tracker {
    var head: Allocation?
    var totalSize: nat
    var maxSize: nat
    var allocations: nat
    ghost var nodes: seq<Allocation>

    ghost predicate Valid()
      reads this, nodes
    {
      ListOf(head, nodes)
    }

    ghost function State(): Accounts
      reads this, nodes
    {
      Accounts(BlocksOf(nodes), totalSize, maxSize, allocations)
    }

    constructor ()
      ensures Valid() && fresh(nodes) && State() == Accounts([], 0, 0, 0)
    {
      head, nodes := null, [];
      totalSize, maxSize, allocations := 0, 0, 0;
    }

    method Add(ptr: nat, size: nat)
      requires Valid()
      modifies `head, `nodes
      ensures Valid() && fresh(set n | n in nodes && n !in old(nodes))
      ensures BlocksOf(nodes) == [Entry(ptr, size)] + old(BlocksOf(nodes))
    {
      var allocation := new Allocation(ptr, size, head);
      head := allocation;
      nodes := [allocation] + nodes;
    }

    method ChargeTotal(size: nat)
      requires Valid()
      modifies `totalSize, `maxSize, `allocations
      ensures State() == Charge(old(State()), size)
    {
      allocations := Wrap(allocations + 1);
      totalSize := Wrap(totalSize + size);
      if maxSize < totalSize {
        maxSize := totalSize;
      }
    }

    method Malloc(size: nat, node: bool, reply: nat) returns (result: nat)
      requires Valid()
      modifies this
      ensures Valid() && State() == Apply(old(State()), Op.Malloc(size, node, reply))
      ensures fresh(set n | n in nodes && n !in old(nodes))
      ensures result == if node then reply else 0
    {
      if !node {
        return 0;
      }
      result := reply;
      if result != 0 {
        Add(result, size);
        ChargeTotal(size);
      }
    }

    method Calloc(nmemb: nat, size: nat, node: bool, reply: nat) returns (result: nat)
      requires Valid()
      modifies this
      ensures Valid() && State() == Apply(old(State()), Op.Calloc(nmemb, size, node, reply))
      ensures fresh(set n | n in nodes && n !in old(nodes))
      ensures result == if node then reply else 0
    {
      if !node {
        return 0;
      }
      result := reply;
      if result != 0 {
        Add(result, Wrap(nmemb * size));
        ChargeTotal(Wrap(nmemb * size));
      }
    }

    // The walk along the list; i is the place of the record found.
    method Find(ptr: nat) returns (curr: Allocation?, prev: Allocation?, ghost i: nat)
      requires Valid()
      ensures i == IndexOf(BlocksOf(nodes), ptr) && curr == NodeAt(nodes, IndexOf(BlocksOf(nodes), ptr))
      ensures prev == if i == 0 then null else nodes[i - 1]
    {
      curr, prev, i := head, null, 0;
      while curr != null && curr.ptr != ptr
        invariant i <= |nodes| && curr == NodeAt(nodes, i)
        invariant prev == if i == 0 then null else nodes[i - 1]
        invariant forall j | 0 <= j < i :: nodes[j].ptr != ptr
        decreases |nodes| - i
      {
        prev := curr;
        curr := curr.next;
        i := i + 1;
      }
      IndexIs(BlocksOf(nodes), ptr, i);
    }

    method Realloc(ptr: nat, size: nat, node: bool, reply: nat) returns (result: nat)
      requires Valid()
      modifies this, nodes
      ensures Valid() && State() == Apply(old(State()), Op.Realloc(ptr, size, node, reply))
      ensures fresh(set n | n in nodes && n !in old(nodes))
      ensures result == if (if ptr == 0 then node else IndexOf(old(BlocksOf(nodes)), ptr) < |old(nodes)|) then reply else 0
    {
      hide Wrap, Charge, IndexOf, ListOf, BlocksOf;
      ghost var before := State();
      if ptr == 0 {
        if !node {
          return 0;
        }
        result := reply;
        if result != 0 {
          Add(result, size);
          ChargeTotal(size);
        }
      } else {
        var curr, _, i := Find(ptr);
        if curr == null {
          return 0;
        }
        result := reply;
        if result != 0 {
          Rewrite(curr, i, result, size);
          ghost var middle := State();
          assert middle.blocks == before.blocks[i := Entry(result, size)];
          ChargeTotal(size);
          assert State() == Retrack(before, i, result, size);
        }
      }
    }

    method Rewrite(curr: Allocation, ghost i: nat, ptr: nat, size: nat)
      requires Valid() && i < |nodes| && curr == nodes[i]
      modifies curr`ptr, curr`size, `totalSize
      ensures Valid()
      ensures BlocksOf(nodes) == old(BlocksOf(nodes))[i := Entry(ptr, size)]
      ensures totalSize == Wrap(old(totalSize) - old(curr.size))
    {
      curr.ptr := ptr;
      totalSize := Wrap(totalSize - curr.size);
      curr.size := size;
    }

    method Free(ptr: nat)
      requires Valid()
      modifies this, nodes
      ensures Valid() && State() == Apply(old(State()), Op.Free(ptr))
      ensures fresh(set n | n in nodes && n !in old(nodes))
    {
      hide Wrap, IndexOf, ListOf, BlocksOf;
      ghost var before := State();
      var curr, prev, i := Find(ptr);
      if curr != null {
        totalSize := Wrap(totalSize - curr.size);
        DropFrom(nodes, i);
        Unlink(curr, prev, i);
        assert State() == Untrack(before, i);
      }
    }

    method Unlink(curr: Allocation, prev: Allocation?, ghost i: nat)
      requires Valid() && i < |nodes| && curr == nodes[i]
      requires prev == if i == 0 then null else nodes[i - 1]
      modifies `head, `nodes, (if prev == null then {} else {prev})`next
      ensures Valid() && BlocksOf(nodes) == Drop(old(BlocksOf(nodes)), i)
      ensures nodes == Drop(old(nodes), i)
    {
      hide Drop;
      Relink(curr, prev, i);
      hide ListOf, NodeAt;
      assert BlocksOf(nodes) == old(BlocksOf(nodes));
      hide BlocksOf;
      ListWithout(head, nodes, i);
      BlocksWithout(nodes, i);
      nodes := Drop(nodes, i);
    }

    // The pointer to the record now leads past it.
    method Relink(curr: Allocation, prev: Allocation?, ghost i: nat)
      requires Valid() && i < |nodes| && curr == nodes[i]
      requires prev == if i == 0 then null else nodes[i - 1]
      modifies `head, (if prev == null then {} else {prev})`next
      ensures forall j, k | 0 <= j < k < |nodes| :: nodes[j] != nodes[k]
      ensures head == if i == 0 then NodeAt(nodes, 1) else nodes[0]
      ensures forall j | 0 <= j < |nodes| && j != i - 1 :: nodes[j].next == NodeAt(nodes, j + 1)
      ensures i > 0 ==> nodes[i - 1].next == NodeAt(nodes, i + 1)
    {
      assert curr.next == NodeAt(nodes, i + 1);
      assert forall j | 0 <= j < |nodes| && j != i - 1 :: nodes[j] != prev;
      if prev != null {
        prev.next := curr.next;
      } else {
        head := curr.next;
      }
    }

    method GetMaximumMemoryUsed() returns (result: nat)
      ensures result == State().max
    {
      result := maxSize;
    }

    method GetCurrentMemoryUsed() returns (result: nat)
      ensures result == State().total
    {
      result := totalSize;
    }

    method GetAllocationCount() returns (result: nat)
      ensures result == State().count
    {
      result := allocations;
    }

    method Reset()
      requires Valid()
      modifies `totalSize, `maxSize, `allocations
      ensures Valid() && State() == Apply(old(State()), ResetMetrics)
    {
      totalSize, maxSize, allocations := 0, 0, 0;
    }
  }
}
