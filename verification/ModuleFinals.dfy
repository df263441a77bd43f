/** Module finalisers: run in the reverse of the order the modules were
  * initialized in, each once, even when one of them halts. */
module ModuleFinals {
  /** A module's finaliser; `halts` when it ends the program itself. */
  datatype Finaliser = Finaliser(id: nat, halts: bool)

  function Reverse(s: seq<Finaliser>): (r: seq<Finaliser>)
    ensures |r| == |s|
  {
    if s == [] then [] else [s[|s| - 1]] + Reverse(s[..|s| - 1])
  }

  lemma {:induction false} ReverseAt(s: seq<Finaliser>, i: nat)
    requires i < |s|
    ensures Reverse(s)[i] == s[|s| - 1 - i]
  {
    if i > 0 {
      ReverseAt(s[..|s| - 1], i - 1);
    }
  }

  /** A module registers once what it imports has: its finaliser runs first. */
  lemma ImporterRunsFirst(s: seq<Finaliser>, imported: nat, importer: nat)
    requires imported < importer < |s|
    ensures exists i, j :: 0 <= i < j < |s| && Reverse(s)[i] == s[importer] && Reverse(s)[j] == s[imported]
  {
    ReverseAt(s, |s| - 1 - importer);
    ReverseAt(s, |s| - 1 - imported);
  }

  lemma LatestFirst(s: seq<Finaliser>, n: nat)
    requires 0 < n <= |s|
    ensures Reverse(s[..n]) == [s[n - 1]] + Reverse(s[..n - 1])
  {
    assert s[..n][..n - 1] == s[..n - 1];
  }

  lemma NothingLeft()
    ensures Reverse([]) == []
  {
  }

  class Finalisers {
    var slots: array<Finaliser>
    var count: nat
    ghost var ran: seq<Finaliser>

    ghost predicate Valid()
      reads this
    {
      count <= slots.Length
    }

    ghost function Pending(): seq<Finaliser>
      reads this, slots
      requires Valid()
    {
      slots[..count]
    }

    constructor ()
      ensures Valid() && Pending() == [] && ran == [] && fresh(slots)
    {
      slots := new Finaliser[0];
      count, ran := 0, [];
    }

    method Push(f: Finaliser)
      requires Valid()
      modifies this, slots
      ensures Valid() && Pending() == old(Pending()) + [f] && ran == old(ran)
      ensures slots == old(slots) || fresh(slots)
    {
      if count == slots.Length {
        var cap := if count > 0 then count * 2 else 8;
        var grown := new Finaliser[cap](_ => f);
        forall i | 0 <= i < count {
          grown[i] := slots[i];
        }
        assert grown[..count] == Pending();
        slots := grown;
      }
      slots[count] := f;
      count := count + 1;
    }

    /** Runs what is registered, the latest first. A finaliser is taken off before
      * it runs, so when it halts, and this is entered again, the rest run there
      * and the program ends. */
    method RunAll() returns (exited: bool)
      requires Valid()
      modifies this`count, this`ran
      ensures Valid() && Pending() == [] && ran == old(ran) + Reverse(old(Pending()))
      ensures exited <==> exists f <- old(Pending()) :: f.halts
      decreases count
    {
      hide Reverse;
      exited := false;
      ghost var all := slots[..];
      assert ran + Reverse(all[..count]) == old(ran) + Reverse(old(Pending()));
      while count > 0
        invariant Valid() && count <= old(count)
        invariant ran + Reverse(all[..count]) == old(ran) + Reverse(old(Pending()))
        invariant forall i | count <= i < old(count) :: !all[i].halts
      {
        LatestFirst(all, count);
        count := count - 1;
        var f := slots[count];
        ran := ran + [f];
        if f.halts {
          assert f in old(Pending());
          var nested := RunAll();
          return true;
        }
      }
      NothingLeft();
    }
  }
}
