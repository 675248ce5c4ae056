/** Shared vocabulary. */
module Basics {
  datatype Option<T> = None | Some(value: T)

  newtype byte = x: int | 0 <= x < 256

  /** What an accessor has been handed once a list was offered to it: it takes the first element in any
      case and further ones until it asks to stop, for which it may look at all it was handed. */
  function Offered<T>(had: seq<T>, list: seq<T>, stop: seq<T> -> bool): seq<T> {
    if list == [] then had
    else
      var h := Offered(had, list[..|list| - 1], stop);
      if |list| > 1 && stop(h) then h else h + [list[|list| - 1]]
  }

  /** An accessor that never stops is handed everything. */
  lemma {:induction false} OfferedAll<T>(had: seq<T>, list: seq<T>, stop: seq<T> -> bool)
    requires forall h :: !stop(h)
    ensures Offered(had, list, stop) == had + list
  {
    if list != [] {
      OfferedAll(had, list[..|list| - 1], stop);
      assert list == list[..|list| - 1] + [list[|list| - 1]];
    }
  }

  /** What was offered last. */
  lemma OfferedNext<T>(had: seq<T>, list: seq<T>, x: T, stop: seq<T> -> bool)
    ensures Offered(had, list + [x], stop) ==
            if list != [] && stop(Offered(had, list, stop)) then Offered(had, list, stop)
                else Offered(had, list, stop) + [x]
  {
    assert (list + [x])[..|list|] == list;
  }

  /** Once it has asked to stop it is handed nothing more of that list. */
  lemma {:induction false} OfferedStays<T>(had: seq<T>, list: seq<T>, more: seq<T>, stop: seq<T> -> bool)
    requires list != [] && stop(Offered(had, list, stop))
    ensures Offered(had, list + more, stop) == Offered(had, list, stop)
    decreases |more|
  {
    if more == [] {
      assert list + more == list;
    } else {
      assert (list + more)[..|list + more| - 1] == list + more[..|more| - 1];
      OfferedStays(had, list, more[..|more| - 1], stop);
    }
  }

  /** Length of a serialised entry: 53 fixed bytes, key and value, padded to 8, then 8 bytes per
      deactivated serial number. */
  function SerialisedLen(keyLen: nat, valueLen: nat, dsns: nat): (r: nat)
    ensures r % 8 == 0 && r >= 56 + 8 * dsns
    ensures 53 + keyLen + valueLen + 8 * dsns <= r < 61 + keyLen + valueLen + 8 * dsns
  {
    (53 + keyLen + valueLen + 7) / 8 * 8 + 8 * dsns
  }

  method Least(s: set<nat>) returns (least: nat)
    requires s != {}
    ensures least in s && forall x :: x in s ==> least <= x
  {
    least :| least in s;
    var rest := s - {least};
    while rest != {}
      invariant least in s && rest <= s && forall x :: x in s && x !in rest ==> least <= x
      decreases rest
    {
      var x :| x in rest;
      if x < least { least := x; }
      rest := rest - {x};
    }
  }
}
