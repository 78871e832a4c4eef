/** The bytes that a directory's hash is taken of.  SHA-256 itself is not part of this model. */
module DirectoryHash {
  import opened Basics
  import opened Utf8
  import opened Ordering

  type Bytes = seq<Byte>

  datatype Kind = File | Directory

  /** A child: its hash is the 32 bytes that its lower-case digest spells. */
  datatype Child = Child(name: Text, kind: Kind, hash: Bytes)

  predicate Hashable(c: Child) {
    |c.hash| == 32 && |Encode(c.name)| < 0x1_0000_0000
  }

  predicate AllHashable(cs: seq<Child>) {
    forall i :: 0 <= i < |cs| ==> Hashable(cs[i])
  }

  /** Python's order on the tuples: names, then kinds by their spelling, then digests. */
  predicate ChildLeq(a: Child, b: Child) {
    if a.name != b.name then LexLess(a.name, b.name)
    else if a.kind != b.kind then a.kind == Directory
    else LexLeq(a.hash, b.hash)
  }

  lemma ChildOrder()
    ensures TotalPreorder(ChildLeq) && Antisymmetric(ChildLeq)
  {
    LexOrder();
    hide LexLess;
    forall a, b ensures ChildLeq(a, b) || ChildLeq(b, a) {
      LexTotal(a.name, b.name);
      assert LexLeq(a.hash, b.hash) || LexLeq(b.hash, a.hash);
    }
    forall a, b | ChildLeq(a, b) && ChildLeq(b, a) ensures a == b {
      LexTotal(a.name, b.name);
    }
    forall a, b, c | ChildLeq(a, b) && ChildLeq(b, c) ensures ChildLeq(a, c) {
      ChildTransitive(a, b, c);
    }
  }

  lemma ChildTransitive(a: Child, b: Child, c: Child)
    requires ChildLeq(a, b) && ChildLeq(b, c)
    ensures ChildLeq(a, c)
  {
    hide LexLess;
    LexTotal(a.name, b.name);
    if a.name != b.name && b.name != c.name {
      LexTransitive(a.name, b.name, c.name);
      LexTotal(a.name, c.name);
    }
    if a.hash != b.hash && b.hash != c.hash && LexLess(a.hash, b.hash) && LexLess(b.hash, c.hash) {
      LexTransitive(a.hash, b.hash, c.hash);
    }
  }

  // ---------------------------------------------------------------- the preimage

  function BigEndian(n: nat): (b: Bytes)
    requires n < 0x1_0000_0000
    ensures |b| == 4
  {
    [n / 0x100_0000, n / 0x1_0000 % 0x100, n / 0x100 % 0x100, n % 0x100]
  }

  lemma BigEndianInjective(m: nat, n: nat)
    requires m < 0x1_0000_0000 && n < 0x1_0000_0000 && BigEndian(m) == BigEndian(n)
    ensures m == n
  {
    BigEndianValue(m);
    BigEndianValue(n);
  }

  lemma BigEndianValue(n: nat)
    requires n < 0x1_0000_0000
    ensures var b := BigEndian(n); n == (((b[0] as int) * 0x100 + b[1]) * 0x100 + b[2]) * 0x100 + b[3]
  {
    assert n / 0x100 == n / 0x1_0000 * 0x100 + n / 0x100 % 0x100;
    assert n / 0x1_0000 == n / 0x100_0000 * 0x100 + n / 0x1_0000 % 0x100;
  }

  function KindByte(k: Kind): Byte {
    if k == File then 0x46 else 0x44
  }

  /** One child: kind, length of the name, name, digest. */
  function Entry(c: Child): (b: Bytes)
    requires Hashable(c)
    ensures |b| == 37 + |Encode(c.name)|
  {
    [KindByte(c.kind)] + BigEndian(|Encode(c.name)|) + Encode(c.name) + c.hash
  }

  /** Where each part of a child stands: "F" or "D", the length of the name with the highest byte
      first, the name, the digest. */
  lemma EntryLayout(c: Child)
    requires Hashable(c)
    ensures var b, n := Entry(c), |Encode(c.name)|;
      && b[0] == (if c.kind == File then 0x46 else 0x44)
      && n == (b[1] as int) * 0x100_0000 + (b[2] as int) * 0x1_0000 + (b[3] as int) * 0x100 + b[4] as int
      && b[5..5 + n] == Encode(c.name) && b[5 + n..] == c.hash
  {
    var b, n := Entry(c), |Encode(c.name)|;
    BigEndianValue(n);
    hide Encode;
    var length := BigEndian(n);
    assert b[1] == length[0] && b[2] == length[1] && b[3] == length[2] && b[4] == length[3];
    assert b[5..5 + n] == Encode(c.name);
    assert b[5 + n..] == c.hash;
  }

  function Entries(cs: seq<Child>): Bytes
    requires AllHashable(cs)
  {
    if cs == [] then [] else Entries(cs[..|cs| - 1]) + Entry(cs[|cs| - 1])
  }

  /** "mem-sandbox-directory-v1" and a zero byte */
  const PREFIX: Bytes := [
    0x6D, 0x65, 0x6D, 0x2D, 0x73, 0x61, 0x6E, 0x64, 0x62, 0x6F, 0x78, 0x2D, 0x64, 0x69, 0x72, 0x65,
    0x63, 0x74, 0x6F, 0x72, 0x79, 0x2D, 0x76, 0x31, 0x00]

  function Sorted(cs: seq<Child>): seq<Child> {
    Sort(cs, ChildLeq)
  }

  lemma SortedHashable(cs: seq<Child>)
    requires AllHashable(cs)
    ensures AllHashable(Sorted(cs))
  {
    SortContents(cs, ChildLeq);
    hide Hashable;
    forall i | 0 <= i < |Sorted(cs)| ensures Hashable(Sorted(cs)[i]) {
      assert Sorted(cs)[i] in multiset(cs);
    }
  }

  function Preimage(cs: seq<Child>): Bytes
    requires AllHashable(cs)
  {
    SortedHashable(cs);
    PREFIX + Entries(Sorted(cs))
  }

  // ---------------------------------------------------------------- the digest loop

  class Digest {
    ghost var fed: Bytes

    constructor ()
      ensures fed == []
    {
      fed := [];
    }

    method Update(data: Bytes)
      modifies this
      ensures fed == old(fed) + data
    {
      fed := fed + data;
    }
  }

  /** Feeds the digest; a name too long for its length field is refused (`to_bytes` overflows). */
  method HashDirectory(children: seq<Child>) returns (digest: Option<Digest>)
    requires forall i :: 0 <= i < |children| ==> |children[i].hash| == 32
    ensures digest.Some? <==> AllHashable(children)
    ensures digest.Some? ==> fresh(digest.value) && digest.value.fed == Preimage(children)
  {
    hide Encode, ChildLeq, Entries, Entry, BigEndian, Hashable, AllHashable;
    var d := new Digest();
    d.Update(PREFIX);
    var ordered := Sorted(children);
    NothingFed();
    assert ordered[..0] == [];
    for i := 0 to |ordered|
      invariant AllHashable(ordered[..i]) && fresh(d) && d.fed == PREFIX + Entries(ordered[..i])
    {
      var child := ordered[i];
      FromChildren(children, i);
      var name := Encode(child.name);
      if |name| >= 0x1_0000_0000 {
        TooLong(children, child);
        return None;
      }
      ghost var before := d.fed;
      d.Update([KindByte(child.kind)]);
      d.Update(BigEndian(|name|));
      d.Update(name);
      d.Update(child.hash);
      FedEntry(ordered, i, before, d.fed);
    }
    assert ordered[..|ordered|] == ordered;
    AllFed(children);
    return Some(d);
  }

  lemma NothingFed()
    ensures AllHashable([]) && PREFIX + Entries([]) == PREFIX
  {
  }

  lemma FromChildren(children: seq<Child>, i: nat)
    requires i < |Sorted(children)|
    ensures Sorted(children)[i] in children
  {
    SortContents(children, ChildLeq);
    assert Sorted(children)[i] in multiset(children);
  }

  lemma TooLong(children: seq<Child>, c: Child)
    requires c in children && |Encode(c.name)| >= 0x1_0000_0000
    ensures !AllHashable(children)
  {
    var i :| 0 <= i < |children| && children[i] == c;
    assert !Hashable(children[i]);
  }

  lemma FedEntry(ordered: seq<Child>, i: nat, before: Bytes, fed: Bytes)
    requires i < |ordered| && AllHashable(ordered[..i]) && before == PREFIX + Entries(ordered[..i])
    requires |ordered[i].hash| == 32 && |Encode(ordered[i].name)| < 0x1_0000_0000
    requires var c := ordered[i];
      fed == before + [KindByte(c.kind)] + BigEndian(|Encode(c.name)|) + Encode(c.name) + c.hash
    ensures AllHashable(ordered[..i + 1]) && fed == PREFIX + Entries(ordered[..i + 1])
  {
    hide Encode, BigEndian;
    var c, more := ordered[i], ordered[..i + 1];
    assert more[..i] == ordered[..i] && more[i] == c;
    assert forall j :: 0 <= j < i ==> more[j] == ordered[..i][j];
    var n, h := Encode(c.name), [KindByte(c.kind)] + BigEndian(|Encode(c.name)|);
    assert before + [KindByte(c.kind)] + BigEndian(|n|) == before + h;
    assert before + h + n + c.hash == before + Entry(c);
    assert before + Entry(c) == PREFIX + (Entries(ordered[..i]) + Entry(c));
  }

  lemma AllFed(children: seq<Child>)
    requires AllHashable(Sorted(children))
    ensures AllHashable(children)
  {
    hide Hashable, ChildLeq;
    SortContents(children, ChildLeq);
    forall i | 0 <= i < |children| ensures Hashable(children[i]) {
      assert children[i] in multiset(Sorted(children));
    }
  }

  // ---------------------------------------------------------------- unique decodability

  lemma FirstBytes(a: Bytes, b: Bytes, c: Bytes, d: Bytes)
    requires a + b == c + d && |a| == |c|
    ensures a == c && b == d
  {
    assert a == (a + b)[..|a|] && c == (c + d)[..|c|];
    assert b == (a + b)[|a|..] && d == (c + d)[|c|..];
  }

  /** An entry can be read off the front of a byte string in only one way. */
  lemma EntryReadsOnce(a: Child, x: Bytes, b: Child, y: Bytes)
    requires Hashable(a) && Hashable(b) && Entry(a) + x == Entry(b) + y
    ensures a == b && x == y
  {
    hide Encode, BigEndian;
    var na, nb := Encode(a.name), Encode(b.name);
    var ha, hb := [KindByte(a.kind)] + BigEndian(|na|), [KindByte(b.kind)] + BigEndian(|nb|);
    assert Entry(a) + x == ha + (na + (a.hash + x)) && Entry(b) + y == hb + (nb + (b.hash + y));
    FirstBytes(ha, na + (a.hash + x), hb, nb + (b.hash + y));
    FirstBytes([KindByte(a.kind)], BigEndian(|na|), [KindByte(b.kind)], BigEndian(|nb|));
    assert [KindByte(a.kind)][0] == [KindByte(b.kind)][0];
    BigEndianInjective(|na|, |nb|);
    FirstBytes(na, a.hash + x, nb, b.hash + y);
    FirstBytes(a.hash, x, b.hash, y);
    EncodeInjective(a.name, b.name);
  }

  lemma {:induction false} EntriesFromFront(cs: seq<Child>)
    requires AllHashable(cs) && cs != []
    ensures Entries(cs) == Entry(cs[0]) + Entries(cs[1..])
    decreases |cs|
  {
    hide Entry, Hashable;
    var front := cs[..|cs| - 1];
    if front == [] {
      assert cs[1..] == [];
      assert Entries(cs[1..]) == [];
      assert [] + Entry(cs[0]) == Entry(cs[0]) + [];
    } else {
      EntriesFromFront(front);
      assert cs[1..][..|cs| - 2] == front[1..];
      assert cs[1..][|cs| - 2] == cs[|cs| - 1];
      assert Entry(cs[0]) + (Entries(front[1..]) + Entry(cs[|cs| - 1])) == Entry(cs[0]) + Entries(front[1..]) + Entry(cs[|cs| - 1]);
    }
  }

  /** Equal entry strings come from equal lists of children. */
  lemma {:induction false} EntriesInjective(a: seq<Child>, b: seq<Child>)
    requires AllHashable(a) && AllHashable(b) && Entries(a) == Entries(b)
    ensures a == b
    decreases |a|
  {
    hide Hashable, Entry;
    if a != [] {
      EntriesFromFront(a);
    }
    if b != [] {
      EntriesFromFront(b);
    }
    hide Entries;
    if a == [] || b == [] {
      NoEntries();
      assert a == [] && b == [];
    } else {
      EntryReadsOnce(a[0], Entries(a[1..]), b[0], Entries(b[1..]));
      EntriesInjective(a[1..], b[1..]);
      assert a == [a[0]] + a[1..] && b == [b[0]] + b[1..];
    }
  }

  lemma NoEntries()
    ensures Entries([]) == []
  {
  }

  /** Two collections feed the digest the same bytes exactly when they are the same collection,
      in whatever order they are listed. */
  lemma SameBytesSameChildren(a: seq<Child>, b: seq<Child>)
    requires AllHashable(a) && AllHashable(b)
    ensures Preimage(a) == Preimage(b) <==> multiset(a) == multiset(b)
  {
    hide ChildLeq, Entries, Hashable;
    ChildOrder();
    SortedHashable(a);
    SortedHashable(b);
    if multiset(a) == multiset(b) {
      SortOfPermutation(a, b, ChildLeq);
    }
    if Preimage(a) == Preimage(b) {
      FirstBytes(PREFIX, Entries(Sorted(a)), PREFIX, Entries(Sorted(b)));
      EntriesInjective(Sorted(a), Sorted(b));
      SortContents(a, ChildLeq);
      SortContents(b, ChildLeq);
    }
  }
}
