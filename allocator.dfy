/**
 * The anonymous-identity catalogue: 28 (emoji, animal name) pairs handed out
 * to students in catalogue order, lowest free index first.
 */
module Allocator {
  import opened Sessions

  /** ANONYMOUS_ANIMALS */
  const Catalogue: seq<(string, string)> := [
    ("🦊", "Fuchs"), ("🐻", "Bär"), ("🦁", "Löwe"), ("🐯", "Tiger"),
    ("🦋", "Schmetterling"), ("🐢", "Schildkröte"), ("🦉", "Eule"), ("🐬", "Delfin"),
    ("🦅", "Adler"), ("🐺", "Wolf"), ("🦌", "Hirsch"), ("🐘", "Elefant"),
    ("🦒", "Giraffe"), ("🐼", "Panda"), ("🦜", "Papagei"), ("🐨", "Koala"),
    ("🦩", "Flamingo"), ("🐸", "Frosch"), ("🦔", "Igel"), ("🐿️", "Eichhörnchen"),
    ("🦭", "Robbe"), ("🐧", "Pinguin"), ("🦚", "Pfau"), ("🐝", "Biene"),
    ("🦎", "Eidechse"), ("🐙", "Oktopus"), ("🦀", "Krabbe"), ("🐌", "Schnecke")]

  /** The catalogue indices the current students of a session hold. */
  function UsedIndices(students: map<Sid, Student>): (used: set<nat>)
    ensures forall sid :: sid in students ==> students[sid].animalIndex in used
    ensures forall j :: j in used ==> exists sid :: sid in students && students[sid].animalIndex == j
  {
    set sid | sid in students :: students[sid].animalIndex
  }

  /** Every catalogue index is taken. */
  predicate Exhausted(used: set<nat>) {
    forall j :: 0 <= j < |Catalogue| ==> j in used
  }

  /** f"{emoji} {animal_name}" */
  function AnonymousId(emoji: string, animalName: string): string {
    emoji + " " + animalName
  }

  /** The value of a string of decimal digits. */
  function DecimalValue(s: string): nat
    requires forall i :: 0 <= i < |s| ==> '0' <= s[i] <= '9'
  {
    if s == [] then 0 else 10 * DecimalValue(s[..|s| - 1]) + (s[|s| - 1] as int - '0' as int)
  }

  /** str(n): the decimal digits of n, without leading zeros. */
  function NatToString(n: nat): (s: string)
    ensures 0 < |s| && forall i :: 0 <= i < |s| ==> '0' <= s[i] <= '9'
    ensures s[0] == '0' ==> n == 0 && s == "0"
    ensures DecimalValue(s) == n
  {
    var last := [('0' as int + n % 10) as char];
    if n < 10 then last
    else
      var init := NatToString(n / 10);
      assert (init + last)[..|init|] == init;
      init + last
  }

  /**
   * The identities get_anonymous_name may hand out for a student map: while a
   * catalogue index is free, exactly the lowest free index with its pair; once
   * all are taken, any catalogue pair with the student count + 1 appended.
   */
  predicate IsAllocation(students: map<Sid, Student>, index: nat, emoji: string, name: string): (ok: bool)
    ensures ok ==> index < |Catalogue|
    ensures ok && !Exhausted(UsedIndices(students)) ==>
      forall sid :: sid in students ==> students[sid].animalIndex != index
    ensures ok && Exhausted(UsedIndices(students)) ==> name != Catalogue[index].1
  {
    var used := UsedIndices(students);
    && index < |Catalogue|
    && emoji == Catalogue[index].0
    && if Exhausted(used) then name == Catalogue[index].1 + " " + NatToString(|students| + 1)
       else index !in used && (forall j :: 0 <= j < index ==> j in used) && name == Catalogue[index].1
  }

  /** While a catalogue index is free there is exactly one allowed allocation. */
  lemma AllocationDeterminate(students: map<Sid, Student>, i1: nat, e1: string, n1: string, i2: nat, e2: string, n2: string)
    requires !Exhausted(UsedIndices(students))
    requires IsAllocation(students, i1, e1, n1) && IsAllocation(students, i2, e2, n2)
    ensures i1 == i2 && e1 == e2 && n1 == n2
  {
    var used := UsedIndices(students);
    assert i1 < i2 ==> i1 in used;
    assert i2 < i1 ==> i2 in used;
  }

  /**
   * A student who gets a free index holds an index no other current student
   * holds: if the indices were pairwise distinct before the join, they still are.
   */
  lemma AllocationKeepsIndicesDistinct(students: map<Sid, Student>, sid: Sid, st: Student)
    requires forall a, b :: a in students && b in students && a != b ==> students[a].animalIndex != students[b].animalIndex
    requires st.animalIndex !in UsedIndices(students)
    ensures var after := students[sid := st];
      forall a, b :: a in after && b in after && a != b ==> after[a].animalIndex != after[b].animalIndex
  {
    var after := students[sid := st];
    forall a, b | a in after && b in after && a != b
      ensures after[a].animalIndex != after[b].animalIndex
    {
      if a != sid && b != sid {
        assert after[a] == students[a] && after[b] == students[b];
      } else if a == sid {
        assert students[b].animalIndex in UsedIndices(students);
      } else {
        assert students[a].animalIndex in UsedIndices(students);
      }
    }
  }

  /** The set {0, ..., n - 1}, which has n elements. */
  function Below(n: nat): (r: set<nat>)
    ensures forall j: nat :: j in r <==> j < n
    ensures |r| == n
  {
    if n == 0 then {} else Below(n - 1) + {n - 1}
  }

  lemma {:induction false} SubsetSize<T>(a: set<T>, b: set<T>)
    requires a <= b
    ensures |a| <= |b|
  {
    if a != {} {
      var x :| x in a;
      SubsetSize(a - {x}, b - {x});
    }
  }

  /** Fewer used indices than catalogue entries leave a free one. */
  lemma FreeIndexExists(used: set<nat>)
    requires |used| < |Catalogue|
    ensures !Exhausted(used)
  {
    var all := Below(|Catalogue|);
    assert Exhausted(used) ==> all <= used;
    if all <= used {
      SubsetSize(all, used);
    }
  }

  /** Students never hold more distinct indices than there are students. */
  lemma {:induction false} UsedIndicesSize(students: map<Sid, Student>)
    ensures |UsedIndices(students)| <= |students|
  {
    if students != map[] {
      var sid :| sid in students;
      var rest := students - {sid};
      UsedIndicesSize(rest);
      var bound := UsedIndices(rest) + {students[sid].animalIndex};
      forall x | x in UsedIndices(students) ensures x in bound {
        var s :| s in students && students[s].animalIndex == x;
        if s != sid {
          assert s in rest && rest[s] == students[s];
        }
      }
      SubsetSize(UsedIndices(students), bound);
      assert |students| == |rest| + 1;
    }
  }

  /** In a class of fewer than 28 students every joiner gets an unused animal. */
  lemma SmallClassGetsFreshAnimal(students: map<Sid, Student>)
    requires |students| < |Catalogue|
    ensures !Exhausted(UsedIndices(students))
  {
    UsedIndicesSize(students);
    FreeIndexExists(UsedIndices(students));
  }
}
