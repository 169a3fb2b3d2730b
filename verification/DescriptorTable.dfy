/** The mysocket descriptor table: contexts by number, the lowest free number first. */
module DescriptorTable {

  const MAX_NUM_CONNECTIONS: nat := 64

  class Mysocket {
    var mySd: int

    /** `calloc`: until it is entered into the table its number is 0. */
    constructor ()
      ensures mySd == 0
    {
      mySd := 0;
    }
  }

  /** The lowest number that is not in use, or the size of the table. */
  ghost predicate LowestFree(live: set<nat>, sd: nat) {
    && sd <= MAX_NUM_CONNECTIONS
    && sd !in live
    && forall k: nat :: k < sd ==> k in live
  }

  class Table {
    const globalCtx: array<Mysocket?>

    ghost predicate Valid()
      reads this, globalCtx, set k | 0 <= k < globalCtx.Length :: globalCtx[k]
    {
      && globalCtx.Length == MAX_NUM_CONNECTIONS
      && forall k :: 0 <= k < globalCtx.Length && globalCtx[k] != null ==>
           globalCtx[k].mySd == k
    }

    /** The numbers in use. */
    ghost function Live(): set<nat>
      reads globalCtx
    {
      set k: nat | k < globalCtx.Length && globalCtx[k] != null
    }

    constructor ()
      ensures Valid() && Live() == {}
    {
      globalCtx := new Mysocket?[MAX_NUM_CONNECTIONS](_ => null);
    }

    /** A fresh context under the lowest free number, or -1 when all are in use. */
    method NewMysocket() returns (sd: int)
      requires Valid()
      modifies globalCtx
      ensures Valid()
      ensures sd == -1 <==> forall k: nat :: k < 64 ==> k in old(Live())
      ensures sd != -1 ==> 0 <= sd < MAX_NUM_CONNECTIONS && LowestFree(old(Live()), sd)
                           && Live() == old(Live()) + {sd} && fresh(globalCtx[sd])
      ensures sd == -1 ==> Live() == old(Live())
      ensures forall k :: 0 <= k < globalCtx.Length && k != sd ==>
                globalCtx[k] == old(globalCtx[k])
    {
      var context := new Mysocket();
      var k := 0;
      while k < MAX_NUM_CONNECTIONS
        invariant 0 <= k <= MAX_NUM_CONNECTIONS
        invariant forall j :: 0 <= j < k ==> globalCtx[j] != null
        invariant context.mySd == 0 && fresh(context)
        invariant forall j :: 0 <= j < globalCtx.Length ==> globalCtx[j] == old(globalCtx[j])
      {
        if globalCtx[k] == null {
          assert k !in Live();
          globalCtx[k] := context;
          context.mySd := k;
          return k;
        }
        k := k + 1;
      }
      FreeContext(context);
      return -1;
    }

    /** The end of `_mysock_free_context`: a context that was never entered, or whose number
        has passed to another, leaves the table alone. */
    method FreeContext(context: Mysocket)
      requires Valid() && 0 <= context.mySd < MAX_NUM_CONNECTIONS
      modifies globalCtx
      ensures Valid()
      ensures Live() == if old(globalCtx[context.mySd]) == context
                        then old(Live()) - {context.mySd} else old(Live())
      ensures forall k :: 0 <= k < globalCtx.Length ==>
                globalCtx[k] == if old(globalCtx[k]) == context then null else old(globalCtx[k])
    {
      if globalCtx[context.mySd] == context {
        globalCtx[context.mySd] := null;
      }
    }
  }
}
