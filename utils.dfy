/**
 The identifier supplier behind `Utils.GenerateUUID`. Its real algorithm is not
 part of this model; what the service relies on is that every token it hands out
 is new. The model makes that explicit: the supplier remembers what it has
 issued, and a caller names the strings already in use that the new token must
 avoid (a random UUID avoids them with overwhelming probability).
 */
module Utils {

  /**
   A length that no string of `pool` exceeds. It models nothing in the service:
   it exists only so that `GenerateUUID` can build a token longer than every
   string it must avoid, which makes the token's freshness provable.
   */
  method LongestLength(pool: set<string>) returns (n: nat)
    ensures forall s :: s in pool ==> |s| <= n
  {
    n := 0;
    var rest := pool;
    while rest != {}
      invariant rest <= pool
      invariant forall s :: s in pool - rest ==> |s| <= n
      decreases rest
    {
      var s :| s in rest;
      if |s| > n {
        n := |s|;
      }
      rest := rest - {s};
    }
  }

  class UuidSource {
    /** Every token this supplier has produced so far. */
    var issued: set<string>

    constructor ()
      ensures issued == {}
    {
      issued := {};
    }

    /** A token that is neither in `taken` nor issued before; it is recorded as issued. */
    method GenerateUUID(taken: set<string>) returns (id: string)
      modifies this
      ensures id !in taken && id !in old(issued)
      ensures issued == old(issued) + {id}
    {
      var longest := LongestLength(taken + issued);
      id := seq(longest + 1, _ => 'f');
      issued := issued + {id};
    }
  }
}
