/** The hardware-test catalogs (test_descriptions.c): one table per device
    family listing the firmware's test commands in the order they are
    offered, each flagged when it is a read-class test (one whose pin state
    the host polls). The description strings are dropped. Every table ends
    with the sentinel entry whose command is 0. */
module Catalogs {
  import opened Protocol

  /** One catalog entry: the test command byte and whether it reads. */
  datatype TestCase = TestCase(cmd: Byte, isRead: bool)

  /** The entry that ends every table. */
  const Sentinel: TestCase := TestCase(0, false)

  datatype Catalog = Tests1702A | Tests270x | TestsMCM6876X | TestsMCS48

  /** The tables as declared, sentinel included. The command numbers are
      each family's test ids. */
  function Table(c: Catalog): seq<TestCase>
  {
    match c
    case Tests1702A =>
      [TestCase(1, false), TestCase(2, false), TestCase(3, false), TestCase(4, false),
       TestCase(5, true), TestCase(6, false), TestCase(7, false), TestCase(8, false),
       TestCase(9, false), TestCase(10, false), Sentinel]
    case Tests270x =>
      [TestCase(1, false), TestCase(2, false), TestCase(3, false), TestCase(4, false),
       TestCase(5, false), TestCase(6, false), TestCase(7, true), Sentinel]
    case TestsMCM6876X =>
      [TestCase(1, false), TestCase(2, false), TestCase(3, false),
       TestCase(5, false), TestCase(6, false), TestCase(7, true), Sentinel]
    case TestsMCS48 =>
      [TestCase(1, false), TestCase(6, false), TestCase(7, false), TestCase(2, false),
       TestCase(3, false), TestCase(4, false), TestCase(5, false), TestCase(8, false),
       TestCase(9, false), TestCase(10, true), Sentinel]
  }

  /** How a table is walked: entries are taken from position `from` on
      until one whose command is 0. The result is the position of that
      entry, or the table's length when there is none. */
  function ScanFrom(t: seq<TestCase>, from: nat): (n: nat)
    requires from <= |t|
    decreases |t| - from
    ensures from <= n <= |t|
    ensures forall k :: from <= k < n ==> t[k].cmd != 0
    ensures n < |t| ==> t[n].cmd == 0
  {
    if from == |t| || t[from].cmd == 0 then from else ScanFrom(t, from + 1)
  }

  /** The number of tests a table offers: the entries before the first
      sentinel. */
  function TestCount(t: seq<TestCase>): (n: nat)
    ensures n <= |t|
    ensures forall k :: 0 <= k < n ==> t[k].cmd != 0
    ensures n < |t| ==> t[n].cmd == 0
  {
    ScanFrom(t, 0)
  }

  /** A table is well formed when its only command-0 entry is the sentinel,
      and it is last. */
  predicate WellFormed(t: seq<TestCase>)
  {
    && |t| > 0 && t[|t| - 1] == Sentinel
    && forall k :: 0 <= k < |t| - 1 ==> t[k].cmd != 0
  }

  /** In a well-formed table every entry but the sentinel is a test, and a
      table whose count stops short of its end is not well formed. */
  lemma WellFormedCount(t: seq<TestCase>)
    requires |t| > 0 && t[|t| - 1] == Sentinel
    ensures WellFormed(t) <==> TestCount(t) == |t| - 1
  {
  }

  /** The tests a table offers, in order. */
  function Tests(t: seq<TestCase>): (s: seq<TestCase>)
    ensures |s| == TestCount(t) && s == t[..TestCount(t)]
    ensures forall k :: 0 <= k < |s| ==> s[k].cmd != 0
  {
    t[..TestCount(t)]
  }

  /** The positions of read-class tests. */
  function ReadPositions(s: seq<TestCase>): set<nat>
  {
    set k: nat | k < |s| && s[k].isRead
  }

  /** Whether the command numbers are pairwise distinct. */
  predicate DistinctCmds(s: seq<TestCase>)
  {
    forall i, j :: 0 <= i < j < |s| ==> s[i].cmd != s[j].cmd
  }

  /** The tests a catalog offers. */
  function CatalogTests(c: Catalog): seq<TestCase>
  {
    Tests(Table(c))
  }

  /** Every table ends with exactly one sentinel, and the test counts are
      10, 7, 6 and 10. */
  lemma TablesWellFormed(c: Catalog)
    ensures WellFormed(Table(c))
    ensures |CatalogTests(c)| == |Table(c)| - 1
    ensures |CatalogTests(c)| == match c
                                 case Tests1702A => 10
                                 case Tests270x => 7
                                 case TestsMCM6876X => 6
                                 case TestsMCS48 => 10
  {
    WellFormedCount(Table(c));
  }

  /** Within a catalog the commands are distinct and lie in 1..10. */
  lemma CmdsDistinctInRange(c: Catalog)
    ensures DistinctCmds(CatalogTests(c))
    ensures forall k :: 0 <= k < |CatalogTests(c)| ==> 1 <= CatalogTests(c)[k].cmd <= 10
  {
    TablesWellFormed(c);
    var s := CatalogTests(c);
    CmdsOrder();
    CmdsFacts(Cmds(s));
    assert forall k :: 0 <= k < |s| ==> s[k].cmd == Cmds(s)[k];
  }

  /** The command lists, checked directly: distinct and within 1..10. */
  lemma CmdsFacts(r: seq<Byte>)
    requires r in {[1, 2, 3, 4, 5, 6, 7, 8, 9, 10], [1, 2, 3, 4, 5, 6, 7], [1, 2, 3, 5, 6, 7],
                   [1, 6, 7, 2, 3, 4, 5, 8, 9, 10]}
    ensures forall i, j :: 0 <= i < j < |r| ==> r[i] != r[j]
    ensures forall k :: 0 <= k < |r| ==> 1 <= r[k] <= 10
  {
  }

  /** Where the one read-class test sits: last for the 270x, MCM6876x and
      MCS48 tables, but fifth of ten (command 5, reading the data pins) for
      the 1702A, whose five write-side tests follow it. */
  function ReadPosition(c: Catalog): nat
  {
    match c
    case Tests1702A => 4
    case Tests270x => 6
    case TestsMCM6876X => 5
    case TestsMCS48 => 9
  }

  /** Each catalog has exactly one read-class test, at ReadPosition. */
  lemma OneReadTest(c: Catalog)
    ensures ReadPositions(CatalogTests(c)) == {ReadPosition(c)}
    ensures c != Tests1702A ==> ReadPosition(c) == |CatalogTests(c)| - 1
  {
    TablesWellFormed(c);
    var s := CatalogTests(c);
    assert s[ReadPosition(c)].isRead;
  }

  /** The commands of a catalog's tests, in order. */
  function Cmds(s: seq<TestCase>): (r: seq<Byte>)
    ensures |r| == |s| && forall k :: 0 <= k < |s| ==> r[k] == s[k].cmd
  {
    seq(|s|, k requires 0 <= k < |s| => s[k].cmd)
  }

  /** Position is not command minus one: the MCM6876x table skips test 4
      and the MCS48 table lists the supply tests before the EA tests. Tests
      are found by position, not by number. */
  lemma CmdsOrder()
    ensures Cmds(CatalogTests(TestsMCM6876X)) == [1, 2, 3, 5, 6, 7]
    ensures forall k :: 0 <= k < |CatalogTests(TestsMCM6876X)| ==> CatalogTests(TestsMCM6876X)[k].cmd != 4
    ensures Cmds(CatalogTests(TestsMCS48)) == [1, 6, 7, 2, 3, 4, 5, 8, 9, 10]
    ensures Cmds(CatalogTests(Tests1702A)) == [1, 2, 3, 4, 5, 6, 7, 8, 9, 10]
    ensures Cmds(CatalogTests(Tests270x)) == [1, 2, 3, 4, 5, 6, 7]
  {
    TablesWellFormed(TestsMCM6876X);
    TablesWellFormed(TestsMCS48);
    TablesWellFormed(Tests1702A);
    TablesWellFormed(Tests270x);
  }
}
