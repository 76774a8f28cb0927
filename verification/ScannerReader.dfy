/** The scanner reads like a list of the tokens that it has still to give: the two in lockstep. */
module ScannerReader {
  import opened Basics
  import opened MibScanner
  import Readers

  /** The list at the bottom of a stack of readers stands for the scanner. */
  ghost predicate StandsFor(list: Readers.List, s: Scanner)
    reads list, s, s.Repr
  {
    s.Valid() && list !in s.Repr && list.elements == s.Remaining()
  }

  method LookAhead(list: Readers.List, s: Scanner, n: nat) returns (listed: Option<string>, scanned: Option<Token>)
    requires StandsFor(list, s)
    modifies s.Repr
    ensures StandsFor(list, s) && fresh(s.Repr - old(s.Repr))
    ensures listed.Some? <==> scanned.Some?
    ensures scanned.Some? ==> scanned.value.value == listed.value
  {
    listed := Readers.LookAhead(Readers.OfList(list), n);
    scanned := s.LookAhead(n);
  }

  method Pop(list: Readers.List, s: Scanner) returns (listed: Option<string>, scanned: Option<Token>)
    requires StandsFor(list, s)
    modifies list, s.Repr
    ensures StandsFor(list, s) && fresh(s.Repr - old(s.Repr))
    ensures listed.Some? <==> scanned.Some?
    ensures scanned.Some? ==> scanned.value.value == listed.value
  {
    ghost var tokens := list.elements;
    scanned := s.Pop();
    assert list.elements == tokens;
    listed := Readers.Pop(Readers.OfList(list));
  }

  method IsEOF(list: Readers.List, s: Scanner) returns (listed: bool, scanned: bool)
    requires StandsFor(list, s)
    modifies s.Repr
    ensures StandsFor(list, s) && fresh(s.Repr - old(s.Repr))
    ensures listed == scanned
  {
    listed := Readers.IsEOF(Readers.OfList(list));
    scanned := s.IsEOF();
  }
}
