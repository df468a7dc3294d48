/** The build identity: an FNV-1a hash over every Rust source of a directory tree, in path order. */
module SourceIdentity {
  import opened StableSort

  // ---- the hash ----

  const MODULUS: int := 0x1_0000_0000_0000_0000
  const PRIME: int := 0x0000_0100_0000_01b3
  const OFFSET: int := 0xcbf2_9ce4_8422_2325

  type byte = x: int | 0 <= x < 256

  predicate IsState(s: int) {
    0 <= s < MODULUS
  }

  function Pow2(k: nat): (r: nat)
    ensures r >= 1
  {
    if k == 0 then 1 else 2 * Pow2(k - 1)
  }

  /** The exclusive or of the low `k` bits of two numbers. */
  function Xor(x: nat, y: nat, k: nat): (r: nat)
    ensures r < Pow2(k)
  {
    if k == 0 then 0 else (if x % 2 == y % 2 then 0 else 1) + 2 * Xor(x / 2, y / 2, k - 1)
  }

  lemma ByteWidth()
    ensures Pow2(8) == 256
  {
    assert Pow2(4) == 16;
  }

  /** The exclusive or of a 64-bit state with one byte changes its low byte only. */
  function XorByte(s: int, b: byte): (r: int)
    requires IsState(s)
    ensures IsState(r)
  {
    ByteWidth();
    s - s % 256 + Xor(s % 256, b, 8)
  }

  function Update(s: int, b: byte): (r: int)
    requires IsState(s)
    ensures IsState(r)
  {
    XorByte(s, b) * PRIME % MODULUS
  }

  function Fnv(s: int, bytes: seq<byte>): (r: int)
    requires IsState(s)
    ensures IsState(r)
    decreases |bytes|
  {
    if bytes == [] then s else Fnv(Update(s, bytes[0]), bytes[1..])
  }

  method HashBytes(state: int, bytes: seq<byte>) returns (result: int)
    requires IsState(state)
    ensures IsState(result) && result == Fnv(state, bytes)
  {
    result := state;
    var i := 0;
    while i < |bytes|
      invariant 0 <= i <= |bytes| && IsState(result)
      invariant Fnv(state, bytes) == Fnv(result, bytes[i..])
    {
      assert bytes[i..][1..] == bytes[i + 1..];
      result := XorByte(result, bytes[i]);
      result := result * PRIME % MODULUS;
      i := i + 1;
    }
  }

  /** Hashing distributes over concatenation. */
  lemma {:induction false} HashOfConcatenation(s: int, a: seq<byte>, b: seq<byte>)
    requires IsState(s)
    ensures Fnv(s, a + b) == Fnv(Fnv(s, a), b)
    decreases |a|
  {
    if a == [] {
      assert a + b == b;
    } else {
      assert (a + b)[1..] == a[1..] + b;
      HashOfConcatenation(Update(s, a[0]), a[1..], b);
    }
  }

  // ---- no two states meet ----

  lemma {:induction false} XorCancels(x: nat, y: nat, b: nat, k: nat)
    requires Xor(x, b, k) == Xor(y, b, k) && x < Pow2(k) && y < Pow2(k)
    ensures x == y
  {
    if k > 0 {
      XorCancels(x / 2, y / 2, b / 2, k - 1);
    }
  }

  lemma {:induction false} XorCommutes(x: nat, y: nat, k: nat)
    ensures Xor(x, y, k) == Xor(y, x, k)
  {
    if k > 0 {
      XorCommutes(x / 2, y / 2, k - 1);
    }
  }

  lemma XorByteIsInjective(s: int, t: int, b: byte)
    requires IsState(s) && IsState(t) && XorByte(s, b) == XorByte(t, b)
    ensures s == t
  {
    ByteWidth();
    LowByteDecides(s - s % 256, t - t % 256, Xor(s % 256, b, 8), Xor(t % 256, b, 8));
    LowBytesCancel(s % 256, t % 256, b);
  }

  lemma LowBytesCancel(x: byte, y: byte, b: byte)
    requires Xor(x, b, 8) == Xor(y, b, 8)
    ensures x == y
  {
    ByteWidth();
    XorCancels(x, y, b, 8);
  }

  lemma LowByteDecides(hi: int, lo: int, p: int, q: int)
    requires hi % 256 == 0 && lo % 256 == 0 && 0 <= p < 256 && 0 <= q < 256 && hi + p == lo + q
    ensures hi == lo && p == q
  {
  }

  lemma XorByteTellsBytesApart(s: int, b: byte, c: byte)
    requires IsState(s) && XorByte(s, b) == XorByte(s, c)
    ensures b == c
  {
    XorCommutes(s % 256, b, 8);
    XorCommutes(s % 256, c, 8);
    LowBytesCancel(b, c, s % 256);
  }

  /** The inverse of the prime modulo 2^64. */
  const INVERSE: int := 0xce96_5057_aff6_957b

  lemma InverseOfPrime()
    ensures PRIME * INVERSE == 887285111055 * MODULUS + 1
  {
  }

  /** Multiplication by the odd prime loses nothing modulo 2^64. */
  lemma MultiplyIsInjective(a: int, b: int)
    requires IsState(a) && IsState(b) && a * PRIME % MODULUS == b * PRIME % MODULUS
    ensures a == b
  {
    InverseOfPrime();
    var d := a - b;
    var t := a * PRIME / MODULUS - b * PRIME / MODULUS;
    assert d * PRIME == t * MODULUS;
    assert d * PRIME * INVERSE == t * MODULUS * INVERSE;
    var q := t * INVERSE - d * 887285111055;
    assert d == q * MODULUS;
    OnlyZeroIsClose(q);
  }

  lemma OnlyZeroIsClose(q: int)
    ensures q != 0 ==> q * MODULUS >= MODULUS || q * MODULUS <= -MODULUS
  {
  }

  lemma UpdateIsInjective(s: int, t: int, b: byte)
    requires IsState(s) && IsState(t) && Update(s, b) == Update(t, b)
    ensures s == t
  {
    MultiplyIsInjective(XorByte(s, b), XorByte(t, b));
    XorByteIsInjective(s, t, b);
  }

  lemma UpdateTellsBytesApart(s: int, b: byte, c: byte)
    requires IsState(s) && Update(s, b) == Update(s, c)
    ensures b == c
  {
    MultiplyIsInjective(XorByte(s, b), XorByte(s, c));
    XorByteTellsBytesApart(s, b, c);
  }

  /** For fixed bytes, hashing is injective in the state it starts from. */
  lemma {:induction false} HashIsInjectiveInState(s: int, t: int, bytes: seq<byte>)
    requires IsState(s) && IsState(t) && Fnv(s, bytes) == Fnv(t, bytes)
    ensures s == t
    decreases |bytes|
  {
    if bytes != [] {
      HashIsInjectiveInState(Update(s, bytes[0]), Update(t, bytes[0]), bytes[1..]);
      UpdateIsInjective(s, t, bytes[0]);
    }
  }

  /** Two streams of one length that differ at exactly one position. */
  predicate OneByteApart(a: seq<byte>, b: seq<byte>, k: nat) {
    |a| == |b| && k < |a| && a[k] != b[k] && forall i | 0 <= i < |a| && i != k :: a[i] == b[i]
  }

  /** Changing exactly one byte anywhere in the hashed stream always changes the hash. */
  lemma OneByteAlwaysShows(s: int, a: seq<byte>, b: seq<byte>, k: nat)
    requires IsState(s) && OneByteApart(a, b, k)
    ensures Fnv(s, a) != Fnv(s, b)
  {
    var head, tail := a[..k], a[k + 1..];
    assert a == head + ([a[k]] + tail) && b == head + ([b[k]] + tail);
    var t := Fnv(s, head);
    HashOfConcatenation(s, head, [a[k]] + tail);
    HashOfConcatenation(s, head, [b[k]] + tail);
    assert ([a[k]] + tail)[1..] == tail && ([b[k]] + tail)[1..] == tail;
    if Fnv(s, a) == Fnv(s, b) {
      HashIsInjectiveInState(Update(t, a[k]), Update(t, b[k]), tail);
      UpdateTellsBytesApart(t, a[k], b[k]);
    }
  }

  /** The same in terms of an update: putting another byte anywhere changes the hash. */
  lemma ReplacedByteShows(s: int, a: seq<byte>, k: nat, x: byte)
    requires IsState(s) && k < |a| && x != a[k]
    ensures Fnv(s, a[k := x]) != Fnv(s, a)
  {
    OneByteAlwaysShows(s, a, a[k := x], k);
  }

  // ---- the directory walk ----

  type Bytes = seq<byte>

  datatype Node = File(name: Bytes, content: Bytes) | Dir(name: Bytes, entries: seq<Node>)

  const SLASH: byte := 0x2F

  /** Byte order on names, a prefix first. */
  predicate NameLe(a: Bytes, b: Bytes) {
    a == [] || (b != [] && (a[0] < b[0] || (a[0] == b[0] && NameLe(a[1..], b[1..]))))
  }

  predicate NodeLe(a: Node, b: Node) {
    NameLe(a.name, b.name)
  }

  lemma {:induction false} NamesAreComparable(a: Bytes, b: Bytes)
    ensures NameLe(a, b) || NameLe(b, a)
  {
    if a != [] && b != [] {
      NamesAreComparable(a[1..], b[1..]);
    }
  }

  lemma {:induction false} NameOrderIsTransitive(a: Bytes, b: Bytes, c: Bytes)
    requires NameLe(a, b) && NameLe(b, c)
    ensures NameLe(a, c)
  {
    if a != [] && a[0] == b[0] && b[0] == c[0] {
      NameOrderIsTransitive(a[1..], b[1..], c[1..]);
    }
  }

  lemma {:induction false} NameOrderIsAntisymmetric(a: Bytes, b: Bytes)
    requires NameLe(a, b) && NameLe(b, a)
    ensures a == b
  {
    if a != [] {
      NameOrderIsAntisymmetric(a[1..], b[1..]);
      assert a == [a[0]] + a[1..] && b == [b[0]] + b[1..];
    }
  }

  lemma NodeOrderIsTotal()
    ensures TotalPreorder(NodeLe)
  {
    forall a: Node, b: Node
      ensures NodeLe(a, b) || NodeLe(b, a)
    {
      NamesAreComparable(a.name, b.name);
    }
    forall a: Node, b: Node, c: Node | NodeLe(a, b) && NodeLe(b, c)
      ensures NodeLe(a, c)
    {
      NameOrderIsTransitive(a.name, b.name, c.name);
    }
  }

  /** A `.rs` file: an extension of its own, not a hidden file of that name. */
  predicate IsRust(name: Bytes) {
    |name| > 3 && name[|name| - 3..] == [0x2E, 0x72, 0x73]
  }

  function PathOf(parent: Bytes, name: Bytes): Bytes {
    if parent == [] then name else parent + [SLASH] + name
  }

  /** What one entry contributes to the hashed stream: its path and its content, with nothing between. */
  function NodeStream(node: Node, parent: Bytes): Bytes
    decreases node, 1
  {
    match node
    case File(name, content) => if IsRust(name) then PathOf(parent, name) + content else []
    case Dir(name, entries) => TreeStream(entries, PathOf(parent, name))
  }

  /** The hashed stream of a directory: its entries in path order, whatever order they are listed in. */
  function TreeStream(entries: seq<Node>, parent: Bytes): Bytes
    decreases entries, 0
  {
    SortKeepsMembers(entries, NodeLe);
    Concat(entries, Sort(entries, NodeLe), parent)
  }

  function Concat(entries: seq<Node>, sorted: seq<Node>, parent: Bytes): Bytes
    requires forall n | n in sorted :: n in entries
    decreases entries, 0, |sorted|
  {
    if sorted == [] then []
    else
      assert sorted[0] in sorted && forall n | n in sorted[1..] :: n in sorted;
      NodeStream(sorted[0], parent) + Concat(entries, sorted[1..], parent)
  }

  /** The recursive walk: it sorts what it lists, and hashes each Rust file's path and content. */
  method HashRustSources(entries: seq<Node>, parent: Bytes, state: int) returns (result: int)
    requires IsState(state)
    ensures IsState(result) && result == Fnv(state, TreeStream(entries, parent))
    decreases entries
  {
    var sorted := Sort(entries, NodeLe);
    SortKeepsMembers(entries, NodeLe);
    result := state;
    var i := 0;
    while i < |sorted|
      invariant 0 <= i <= |sorted| && IsState(result)
      invariant forall n | n in sorted[i..] :: n in entries
      invariant Fnv(state, Concat(entries, sorted, parent)) == Fnv(result, Concat(entries, sorted[i..], parent))
    {
      var node := sorted[i];
      ghost var rest := Concat(entries, sorted[i + 1..], parent);
      StepStream(entries, sorted[i..], parent);
      assert sorted[i..][1..] == sorted[i + 1..];
      HashOfConcatenation(result, NodeStream(node, parent), rest);
      match node {
        case Dir(name, inner) =>
          assert node in sorted && node in entries;
          result := HashRustSources(inner, PathOf(parent, name), result);
        case File(name, content) =>
          if IsRust(name) {
            HashOfConcatenation(result, PathOf(parent, name), content);
            result := HashBytes(result, PathOf(parent, name));
            result := HashBytes(result, content);
          }
      }
      i := i + 1;
    }
  }

  lemma StepStream(entries: seq<Node>, sorted: seq<Node>, parent: Bytes)
    requires sorted != [] && forall n | n in sorted :: n in entries
    ensures (forall n | n in sorted[1..] :: n in entries)
    ensures Concat(entries, sorted, parent) == NodeStream(sorted[0], parent) + Concat(entries, sorted[1..], parent)
  {
  }

  // ---- listing order does not matter ----

  /** A directory holds no two entries of one name. */
  predicate DistinctNames(entries: seq<Node>) {
    forall i, j | 0 <= i < j < |entries| :: entries[i].name != entries[j].name
  }

  lemma SameNameSameNode(entries: seq<Node>, a: Node, b: Node)
    requires DistinctNames(entries) && a in entries && b in entries && a.name == b.name
    ensures a == b
  {
  }

  /** Two sorted listings of the same distinctly named entries are equal. */
  lemma {:induction false} SortedListingIsUnique(s: seq<Node>, t: seq<Node>)
    requires SortedBy(s, NodeLe) && SortedBy(t, NodeLe) && multiset(s) == multiset(t) && DistinctNames(s)
    ensures s == t
    decreases |s|
  {
    assert |s| == |multiset(s)| == |multiset(t)| == |t|;
    if s != [] {
      FirstsAgree(s, t);
      assert s == [s[0]] + s[1..] && t == [t[0]] + t[1..];
      assert multiset(s[1..]) == multiset(s) - multiset{s[0]} && multiset(t[1..]) == multiset(t) - multiset{t[0]};
      SortedListingIsUnique(s[1..], t[1..]);
    }
  }

  lemma FirstsAgree(s: seq<Node>, t: seq<Node>)
    requires SortedBy(s, NodeLe) && SortedBy(t, NodeLe) && multiset(s) == multiset(t) && DistinctNames(s) && s != []
      && t != []
    ensures s[0] == t[0]
  {
    assert t[0] in multiset(t) && s[0] in multiset(s);
    assert t[0] in s && s[0] in t;
    FirstIsLeast(s, t[0]);
    FirstIsLeast(t, s[0]);
    NameOrderIsAntisymmetric(s[0].name, t[0].name);
    SameNameSameNode(s, s[0], t[0]);
  }

  lemma FirstIsLeast(s: seq<Node>, x: Node)
    requires SortedBy(s, NodeLe) && x in s
    ensures NodeLe(s[0], x)
  {
    NamesAreComparable(x.name, x.name);
  }

  lemma PermutedNamesStayDistinct(a: seq<Node>)
    requires DistinctNames(a)
    ensures DistinctNames(Sort(a, NodeLe))
  {
    var key := (n: Node) => n.name;
    assert DistinctBy(a, key);
    SortKeepsDistinct(a, NodeLe, key);
    var s := Sort(a, NodeLe);
    forall i, j | 0 <= i < j < |s|
      ensures s[i].name != s[j].name
    {
      assert key(s[i]) != key(s[j]);
    }
  }

  lemma {:induction false} ConcatIgnoresOwner(a: seq<Node>, b: seq<Node>, sorted: seq<Node>, parent: Bytes)
    requires (forall n | n in sorted :: n in a) && (forall n | n in sorted :: n in b)
    ensures Concat(a, sorted, parent) == Concat(b, sorted, parent)
    decreases |sorted|
  {
    if sorted != [] {
      assert forall n | n in sorted[1..] :: n in sorted;
      ConcatIgnoresOwner(a, b, sorted[1..], parent);
    }
  }

  /** A directory's stream does not depend on the order its entries are listed in. */
  lemma ListingOrderIsIrrelevant(a: seq<Node>, b: seq<Node>, parent: Bytes)
    requires multiset(a) == multiset(b) && DistinctNames(a)
    ensures TreeStream(a, parent) == TreeStream(b, parent)
  {
    NodeOrderIsTotal();
    SortIsPermutation(a, NodeLe);
    SortIsPermutation(b, NodeLe);
    SortIsSorted(a, NodeLe);
    SortIsSorted(b, NodeLe);
    PermutedNamesStayDistinct(a);
    SortedListingIsUnique(Sort(a, NodeLe), Sort(b, NodeLe));
    SortKeepsMembers(a, NodeLe);
    SortKeepsMembers(b, NodeLe);
    ConcatIgnoresOwner(a, b, Sort(a, NodeLe), parent);
  }

  // ---- editing one byte of one file ----

  /** Two listings that pair entries of the same names. */
  predicate Paired(a: seq<Node>, b: seq<Node>) {
    |a| == |b| && forall i | 0 <= i < |a| :: a[i].name == b[i].name
  }

  /** How many pairs differ. */
  function Differences(a: seq<Node>, b: seq<Node>): nat
    requires |a| == |b|
  {
    if a == [] then 0
    else
      var k := |a| - 1;
      Differences(a[..k], b[..k]) + if a[k] == b[k] then 0 else 1
  }

  /** One Rust file below the two nodes differs in one byte, and nothing else does. */
  ghost predicate EditedNode(a: Node, b: Node)
    decreases a
  {
    && a.name == b.name
    && match a
       case File(_, content) => b.File? && IsRust(a.name) && exists k :: OneByteApart(content, b.content, k)
       case Dir(_, entries) => b.Dir? && Edited(entries, b.entries)
  }

  /** Exactly one pair of entries differs, and that pair by one byte of one Rust file. */
  ghost predicate Edited(a: seq<Node>, b: seq<Node>)
    decreases a
  {
    Paired(a, b) && Differences(a, b) == 1 && forall i | 0 <= i < |a| :: a[i] == b[i] || EditedNode(a[i], b[i])
  }

  ghost predicate EditedPairs(a: seq<Node>, b: seq<Node>) {
    Paired(a, b) && forall i | 0 <= i < |a| :: a[i] == b[i] || EditedNode(a[i], b[i])
  }

  lemma DifferencesAppend(a: seq<Node>, b: seq<Node>, x: Node, y: Node)
    requires |a| == |b|
    ensures Differences(a + [x], b + [y]) == Differences(a, b) + if x == y then 0 else 1
  {
    assert (a + [x])[..|a|] == a && (b + [y])[..|b|] == b;
  }

  ghost predicate EditedPair(x: Node, y: Node) {
    x.name == y.name && (x == y || EditedNode(x, y))
  }

  lemma PairsAppend(s: seq<Node>, t: seq<Node>, x: Node, y: Node)
    requires EditedPairs(s, t) && EditedPair(x, y)
    ensures EditedPairs(s + [x], t + [y])
    ensures Differences(s + [x], t + [y]) == Differences(s, t) + if x == y then 0 else 1
  {
    DifferencesAppend(s, t, x, y);
  }

  lemma PairsSplit(s: seq<Node>, t: seq<Node>)
    requires EditedPairs(s, t) && s != []
    ensures EditedPairs(s[..|s| - 1], t[..|s| - 1]) && EditedPair(s[|s| - 1], t[|s| - 1])
    ensures Differences(s, t) == Differences(s[..|s| - 1], t[..|s| - 1]) + if s[|s| - 1] == t[|s| - 1] then 0 else 1
  {
  }

  lemma SinglePair(x: Node, y: Node)
    requires EditedPair(x, y)
    ensures EditedPairs([x], [y]) && Differences([x], [y]) == if x == y then 0 else 1
  {
    assert Differences([x][..0], [y][..0]) == 0;
  }

  lemma InsertLast(s: seq<Node>, x: Node)
    ensures s == [] ==> Insert(s, x, NodeLe) == [x]
    ensures s != [] && NodeLe(s[|s| - 1], x) ==> Insert(s, x, NodeLe) == s + [x]
    ensures s != [] && !NodeLe(s[|s| - 1], x) ==> Insert(s, x, NodeLe) == Insert(s[..|s| - 1], x, NodeLe) + [s[|s| - 1]]
  {
  }

  lemma {:induction false} InsertPairs(s: seq<Node>, t: seq<Node>, x: Node, y: Node)
    requires EditedPairs(s, t) && EditedPair(x, y)
    ensures EditedPairs(Insert(s, x, NodeLe), Insert(t, y, NodeLe))
    ensures Differences(Insert(s, x, NodeLe), Insert(t, y, NodeLe)) == Differences(s, t) + if x == y then 0 else 1
    decreases |s|
  {
    InsertLast(s, x);
    InsertLast(t, y);
    if s == [] {
      SinglePair(x, y);
    } else {
      var n := |s| - 1;
      PairsSplit(s, t);
      if NodeLe(s[n], x) {
        PairsAppend(s, t, x, y);
      } else {
        InsertPairs(s[..n], t[..n], x, y);
        PairsAppend(Insert(s[..n], x, NodeLe), Insert(t[..n], y, NodeLe), s[n], t[n]);
      }
    }
  }

  /** Sorting moves the paired entries together. */
  lemma {:induction false} SortPairs(a: seq<Node>, b: seq<Node>)
    requires EditedPairs(a, b)
    ensures EditedPairs(Sort(a, NodeLe), Sort(b, NodeLe))
    ensures Differences(Sort(a, NodeLe), Sort(b, NodeLe)) == Differences(a, b)
    decreases |a|
  {
    if a != [] {
      var k := |a| - 1;
      SortPairs(a[..k], b[..k]);
      InsertPairs(Sort(a[..k], NodeLe), Sort(b[..k], NodeLe), a[k], b[k]);
    }
  }

  ghost predicate Apart(x: Bytes, y: Bytes) {
    exists k :: OneByteApart(x, y, k)
  }

  lemma ApartInContext(head: Bytes, x: Bytes, y: Bytes, tail: Bytes)
    requires Apart(x, y)
    ensures Apart(head + x + tail, head + y + tail)
  {
    var k :| OneByteApart(x, y, k);
    assert OneByteApart(head + x + tail, head + y + tail, |head| + k);
  }

  lemma {:induction false} NoDifferences(a: seq<Node>, b: seq<Node>)
    requires |a| == |b| && Differences(a, b) == 0
    ensures a == b
    decreases |a|
  {
    if a != [] {
      var k := |a| - 1;
      NoDifferences(a[..k], b[..k]);
      assert a == a[..k] + [a[k]] && b == b[..k] + [b[k]];
    }
  }

  lemma {:induction false} DifferencesFromFront(a: seq<Node>, b: seq<Node>)
    requires |a| == |b| && a != []
    ensures Differences(a, b) == Differences(a[1..], b[1..]) + if a[0] == b[0] then 0 else 1
    decreases |a|
  {
    var k := |a| - 1;
    if k > 0 {
      DifferencesFromFront(a[..k], b[..k]);
      assert a[..k][1..] == a[1..][..k - 1] && b[..k][1..] == b[1..][..k - 1];
    }
  }

  lemma {:induction false} EditedNodeApart(a: Node, b: Node, parent: Bytes)
    requires EditedNode(a, b)
    ensures Apart(NodeStream(a, parent), NodeStream(b, parent))
    decreases a, 1, 0
  {
    match a
    case File(name, content) =>
      ApartInContext(PathOf(parent, name), content, b.content, []);
      assert PathOf(parent, name) + content + [] == NodeStream(a, parent);
      assert PathOf(parent, name) + b.content + [] == NodeStream(b, parent);
    case Dir(name, entries) => EditedTreeApart(entries, b.entries, PathOf(parent, name));
  }

  /** One edited byte is one byte of the hashed stream. */
  lemma {:induction false} EditedTreeApart(a: seq<Node>, b: seq<Node>, parent: Bytes)
    requires Edited(a, b)
    ensures Apart(TreeStream(a, parent), TreeStream(b, parent))
    decreases a, 1, 0
  {
    SortPairs(a, b);
    SortKeepsMembers(a, NodeLe);
    SortKeepsMembers(b, NodeLe);
    EditedConcatApart(a, b, Sort(a, NodeLe), Sort(b, NodeLe), parent);
  }

  lemma {:induction false} EditedConcatApart(a: seq<Node>, b: seq<Node>, s: seq<Node>, t: seq<Node>, parent: Bytes)
    requires (forall n | n in s :: n in a) && (forall n | n in t :: n in b)
    requires EditedPairs(s, t) && Differences(s, t) == 1
    ensures Apart(Concat(a, s, parent), Concat(b, t, parent))
    decreases a, 0, |s|
  {
    StepStream(a, s, parent);
    StepStream(b, t, parent);
    DifferencesFromFront(s, t);
    var x, y := NodeStream(s[0], parent), NodeStream(t[0], parent);
    var p, q := Concat(a, s[1..], parent), Concat(b, t[1..], parent);
    if s[0] == t[0] {
      EditedConcatApart(a, b, s[1..], t[1..], parent);
      ApartInContext(x, p, q, []);
      assert x + p + [] == x + p && y + q + [] == y + q;
    } else {
      assert s[0] in s && s[0] in a;
      NoDifferences(s[1..], t[1..]);
      ConcatIgnoresOwner(a, b, s[1..], parent);
      EditedNodeApart(s[0], t[0], parent);
      ApartInContext([], x, y, p);
      assert [] + x + p == x + p && [] + y + p == y + p;
    }
  }

  function Identity(entries: seq<Node>): int {
    Fnv(OFFSET, TreeStream(entries, []))
  }

  /** Editing one byte of one Rust source always changes the build identity. */
  lemma EditingOneByteChangesTheIdentity(a: seq<Node>, b: seq<Node>)
    requires Edited(a, b)
    ensures Identity(a) != Identity(b)
  {
    EditedTreeApart(a, b, []);
    var k :| OneByteApart(TreeStream(a, []), TreeStream(b, []), k);
    OneByteAlwaysShows(OFFSET, TreeStream(a, []), TreeStream(b, []), k);
  }

  // ---- where a path ends is not part of the stream ----

  lemma OneFileStream(name: Bytes, content: Bytes)
    ensures TreeStream([File(name, content)], []) == if IsRust(name) then name + content else []
  {
    var node := File(name, content);
    SortOfSorted([node], NodeLe);
    StepStream([node], [node], []);
    assert [node][1..] == [];
    assert NodeStream(node, []) + [] == NodeStream(node, []);
  }

  lemma OneFileStreamsAgree(name: Bytes, content: Bytes, other: Bytes, otherContent: Bytes)
    requires IsRust(name) && IsRust(other)
    ensures TreeStream([File(name, content)], []) == TreeStream([File(other, otherContent)], [])
      <==> name + content == other + otherContent
  {
    OneFileStream(name, content);
    OneFileStream(other, otherContent);
  }

  /** `a.rs` holding `.rsX` and `a.rs.rs` holding `X` have one identity. */
  lemma DifferentTreesCanCollide()
    ensures var a: seq<Node>, b: seq<Node> :=
      [File([0x61, 0x2E, 0x72, 0x73], [0x2E, 0x72, 0x73, 0x58])],
        [File([0x61, 0x2E, 0x72, 0x73, 0x2E, 0x72, 0x73], [0x58])];
      a != b && Identity(a) == Identity(b)
  {
    OneFileStreamsAgree([0x61, 0x2E, 0x72, 0x73], [0x2E, 0x72, 0x73, 0x58], [0x61, 0x2E, 0x72, 0x73, 0x2E, 0x72, 0x73],
      [0x58]);
  }

  // ---- what the stream does tell ----

  /** A Rust source of a tree: its path and its content. */
  datatype Source = Source(path: Bytes, content: Bytes)

  function NodeSources(node: Node, parent: Bytes): seq<Source>
    decreases node, 1
  {
    match node
    case File(name, content) => if IsRust(name) then [Source(PathOf(parent, name), content)] else []
    case Dir(name, entries) => TreeSources(entries, PathOf(parent, name))
  }

  /** The Rust sources of a tree, in the order they are hashed. */
  function TreeSources(entries: seq<Node>, parent: Bytes): seq<Source>
    decreases entries, 0
  {
    SortKeepsMembers(entries, NodeLe);
    SourcesOf(entries, Sort(entries, NodeLe), parent)
  }

  function SourcesOf(entries: seq<Node>, sorted: seq<Node>, parent: Bytes): seq<Source>
    requires forall n | n in sorted :: n in entries
    decreases entries, 0, |sorted|
  {
    if sorted == [] then []
    else
      assert sorted[0] in sorted && forall n | n in sorted[1..] :: n in sorted;
      NodeSources(sorted[0], parent) + SourcesOf(entries, sorted[1..], parent)
  }

  function Streamed(sources: seq<Source>): Bytes {
    if sources == [] then [] else sources[0].path + sources[0].content + Streamed(sources[1..])
  }

  lemma {:induction false} StreamedConcat(a: seq<Source>, b: seq<Source>)
    ensures Streamed(a + b) == Streamed(a) + Streamed(b)
  {
    if a == [] {
      assert a + b == b;
    } else {
      assert (a + b)[1..] == a[1..] + b;
      StreamedConcat(a[1..], b);
    }
  }

  lemma {:induction false} NodeStreamIsSources(node: Node, parent: Bytes)
    ensures NodeStream(node, parent) == Streamed(NodeSources(node, parent))
    decreases node, 1
  {
    match node
    case File(name, content) =>
      if IsRust(name) {
        OneStreamed(Source(PathOf(parent, name), content));
      }
    case Dir(name, entries) => TreeStreamIsSources(entries, PathOf(parent, name));
  }

  lemma OneStreamed(s: Source)
    ensures Streamed([s]) == s.path + s.content
  {
    assert [s][1..] == [] && s.path + s.content + [] == s.path + s.content;
  }

  /** The stream is the paths and contents of the tree's sources, run together. */
  lemma {:induction false} TreeStreamIsSources(entries: seq<Node>, parent: Bytes)
    ensures TreeStream(entries, parent) == Streamed(TreeSources(entries, parent))
    decreases entries, 0
  {
    SortKeepsMembers(entries, NodeLe);
    ConcatIsSources(entries, Sort(entries, NodeLe), parent);
  }

  lemma {:induction false} ConcatIsSources(entries: seq<Node>, sorted: seq<Node>, parent: Bytes)
    requires forall n | n in sorted :: n in entries
    ensures Concat(entries, sorted, parent) == Streamed(SourcesOf(entries, sorted, parent))
    decreases entries, 0, |sorted|
  {
    if sorted != [] {
      assert sorted[0] in sorted && sorted[0] in entries;
      NodeStreamIsSources(sorted[0], parent);
      ConcatIsSources(entries, sorted[1..], parent);
      StreamedConcat(NodeSources(sorted[0], parent), SourcesOf(entries, sorted[1..], parent));
    }
  }

  /** As many sources, with paths and contents of the same lengths. */
  predicate SameLengths(a: seq<Source>, b: seq<Source>) {
    && |a| == |b|
    && forall i | 0 <= i < |a| :: |a[i].path| == |b[i].path| && |a[i].content| == |b[i].content|
  }

  lemma SplitAlike(p: Bytes, c: Bytes, r: Bytes, q: Bytes, d: Bytes, s: Bytes)
    requires |p| == |q| && |c| == |d| && p + c + r == q + d + s
    ensures p == q && c == d && r == s
  {
    var x, y := p + c + r, q + d + s;
    assert p == x[..|p|] && q == y[..|q|];
    assert c == x[|p|..|p| + |c|] && d == y[|q|..|q| + |d|];
    assert r == x[|p| + |c|..] && s == y[|q| + |d|..];
  }

  lemma {:induction false} StreamedIsInjective(a: seq<Source>, b: seq<Source>)
    requires SameLengths(a, b) && Streamed(a) == Streamed(b)
    ensures a == b
  {
    if a != [] {
      SplitAlike(a[0].path, a[0].content, Streamed(a[1..]), b[0].path, b[0].content, Streamed(b[1..]));
      StreamedIsInjective(a[1..], b[1..]);
      assert a == [a[0]] + a[1..] && b == [b[0]] + b[1..];
    }
  }

  /** For any two trees whose sources agree in number and lengths, the streams are equal exactly
      when the sources are. */
  lemma StreamsAgreeExactly(a: seq<Node>, b: seq<Node>)
    requires SameLengths(TreeSources(a, []), TreeSources(b, []))
    ensures TreeStream(a, []) == TreeStream(b, []) <==> TreeSources(a, []) == TreeSources(b, [])
  {
    TreeStreamIsSources(a, []);
    TreeStreamIsSources(b, []);
    if TreeStream(a, []) == TreeStream(b, []) {
      StreamedIsInjective(TreeSources(a, []), TreeSources(b, []));
    }
  }

  // ---- what is hashed, spelled out ----

  lemma Remainder(x: int, q: int, t: int)
    requires IsState(t) && x * PRIME == q * MODULUS + t
    ensures x * PRIME % MODULUS == t
  {
  }

  lemma OneByteHashed(s: int, b: byte, low: byte, mixed: byte, q: int, t: int)
    requires IsState(s) && IsState(t) && s % 256 == low && Xor(low, b, 8) == mixed
    requires (s - low + mixed) * PRIME == q * MODULUS + t
    ensures Update(s, b) == t
  {
    Remainder(s - low + mixed, q, t);
  }

  lemma FirstByteHashed(s: int, bytes: seq<byte>, b: byte, t: int, result: int)
    requires IsState(s) && IsState(t) && bytes != [] && bytes[0] == b && Update(s, b) == t
    requires Fnv(t, bytes[1..]) == result
    ensures Fnv(s, bytes) == result
  {
  }

  lemma XorOfF()
    ensures Xor(0x25, 0x66, 8) == 0x43
  {
    assert Xor(0x0, 0x1, 2) == 0x1;
    assert Xor(0x2, 0x6, 4) == 0x4;
    assert Xor(0x9, 0x19, 6) == 0x10;
  }

  lemma XorOfFirstO()
    ensures Xor(0xd9, 0x6f, 8) == 0xb6
  {
    assert Xor(0x3, 0x1, 2) == 0x2;
    assert Xor(0xd, 0x6, 4) == 0xb;
    assert Xor(0x36, 0x1b, 6) == 0x2d;
  }

  lemma XorOfSecondO()
    ensures Xor(0x42, 0x6f, 8) == 0x2d
  {
    assert Xor(0x1, 0x1, 2) == 0x0;
    assert Xor(0x4, 0x6, 4) == 0x2;
    assert Xor(0x10, 0x1b, 6) == 0xb;
  }

  lemma FirstStep(s: int, b: byte, t: int)
    requires s == 0xcbf2_9ce4_8422_2325 && b == 0x66 && t == 0xaf63_db4c_8601_ead9
    ensures Update(s, b) == t
  {
    XorOfF();
    OneByteHashed(s, b, 0x25, 0x43, 875948729822, t);
  }

  lemma SecondStep(s: int, b: byte, t: int)
    requires s == 0xaf63_db4c_8601_ead9 && b == 0x6f && t == 0x0898_5907_b541_d342
    ensures Update(s, b) == t
  {
    XorOfFirstO();
    OneByteHashed(s, b, 0xd9, 0xb6, 753294593456, t);
  }

  lemma ThirdStep(s: int, b: byte, t: int)
    requires s == 0x0898_5907_b541_d342 && b == 0x6f && t == 0xdcb2_7518_fed9_d577
    ensures Update(s, b) == t
  {
    XorOfSecondO();
    OneByteHashed(s, b, 0x42, 0x2d, 36915709891, t);
  }

  /** The published 64-bit FNV-1a hash of "foo". */
  lemma HashOfFoo(s: int, f: byte, o: byte, hash: int)
    requires s == OFFSET && f == 0x66 && o == 0x6F && hash == 0xdcb2_7518_fed9_d577
    ensures Fnv(s, [f, o, o]) == hash
  {
    var s1, s2 := 0xaf63_db4c_8601_ead9, 0x0898_5907_b541_d342;
    FirstStep(s, f, s1);
    SecondStep(s1, o, s2);
    ThirdStep(s2, o, hash);
    var bytes: seq<byte> := [f, o, o];
    assert bytes[1..] == [o, o] && bytes[1..][1..] == [o] && bytes[1..][1..][1..] == [];
    FirstByteHashed(s2, bytes[1..][1..], o, hash, hash);
    FirstByteHashed(s1, bytes[1..], o, s2, hash);
    FirstByteHashed(s, bytes, f, s1, hash);
  }

  /** A Rust source is named by a stem and `.rs`. */
  lemma RustNameExactly(name: Bytes)
    ensures IsRust(name) <==> exists stem: Bytes :: stem != [] && name == stem + [0x2E, 0x72, 0x73]
  {
    if IsRust(name) {
      var stem := name[..|name| - 3];
      assert name == stem + name[|name| - 3..];
    }
    forall stem: Bytes | name == stem + [0x2E, 0x72, 0x73]
      ensures name[|name| - 3..] == [0x2E, 0x72, 0x73]
    {
    }
  }

  ghost predicate Named(entries: seq<Node>)
    decreases entries
  {
    forall n | n in entries :: n.name != [] && (n.Dir? ==> Named(n.entries))
  }

  /** Following the names from directory to directory ends at a file with this content. */
  ghost predicate FileAt(entries: seq<Node>, names: seq<Bytes>, content: Bytes)
    decreases |names|
  {
    names != [] && exists n :: n in entries && n.name == names[0] && GoesOn(n, names, content)
  }

  ghost predicate GoesOn(n: Node, names: seq<Bytes>, content: Bytes)
    requires names != []
    decreases |names|, 0
  {
    if |names| == 1 then n.File? && n.content == content else n.Dir? && FileAt(n.entries, names[1..], content)
  }

  function Slashed(names: seq<Bytes>): Bytes
    requires names != []
  {
    if |names| == 1 then names[0] else names[0] + [0x2F] + Slashed(names[1..])
  }

  lemma {:induction false} SourceOfSome(entries: seq<Node>, sorted: seq<Node>, parent: Bytes, s: Source)
    requires forall n | n in sorted :: n in entries
    ensures s in SourcesOf(entries, sorted, parent) <==> exists n :: n in sorted && s in NodeSources(n, parent)
    decreases |sorted|
  {
    if sorted != [] {
      assert sorted[0] in sorted && forall n | n in sorted[1..] :: n in sorted;
      SourceOfSome(entries, sorted[1..], parent, s);
      assert forall n | n in sorted :: n == sorted[0] || n in sorted[1..];
    }
  }

  lemma SourceOfEntry(entries: seq<Node>, parent: Bytes, s: Source)
    ensures s in TreeSources(entries, parent) <==> exists n :: n in entries && s in NodeSources(n, parent)
  {
    SortKeepsMembers(entries, NodeLe);
    SourceOfSome(entries, Sort(entries, NodeLe), parent, s);
  }

  lemma PathOfLonger(parent: Bytes, name: Bytes, rest: Bytes)
    requires name != []
    ensures PathOf(PathOf(parent, name), rest) == PathOf(parent, name + [0x2F] + rest)
  {
    assert parent + [SLASH] + name + [SLASH] + rest == parent + [SLASH] + (name + [0x2F] + rest);
  }

  lemma {:induction false} SourceIsFile(entries: seq<Node>, parent: Bytes, s: Source) returns (names: seq<Bytes>)
    requires Named(entries) && s in TreeSources(entries, parent)
    ensures FileAt(entries, names, s.content) && IsRust(names[|names| - 1]) && s.path == PathOf(parent, Slashed(names))
    decreases entries
  {
    SourceOfEntry(entries, parent, s);
    var n :| n in entries && s in NodeSources(n, parent);
    match n
    case File(name, content) =>
      names := [name];
    case Dir(name, inner) =>
      var rest := SourceIsFile(inner, PathOf(parent, name), s);
      names := [name] + rest;
      assert names[1..] == rest;
      PathOfLonger(parent, name, Slashed(rest));
  }

  lemma {:induction false} FileIsSource(entries: seq<Node>, parent: Bytes, names: seq<Bytes>, content: Bytes)
    requires Named(entries) && FileAt(entries, names, content) && IsRust(names[|names| - 1])
    ensures Source(PathOf(parent, Slashed(names)), content) in TreeSources(entries, parent)
    decreases |names|
  {
    var s := Source(PathOf(parent, Slashed(names)), content);
    var n :| n in entries && n.name == names[0] && GoesOn(n, names, content);
    if |names| > 1 {
      FileIsSource(n.entries, PathOf(parent, n.name), names[1..], content);
      PathOfLonger(parent, n.name, Slashed(names[1..]));
    }
    SourceOfEntry(entries, parent, s);
    assert s in NodeSources(n, parent);
  }

  ghost predicate HeldAt(entries: seq<Node>, names: seq<Bytes>, s: Source) {
    FileAt(entries, names, s.content) && IsRust(names[|names| - 1]) && s.path == Slashed(names)
  }

  /** A path and content are hashed exactly when the tree holds such a file there and it is a Rust source. */
  lemma SourcesExactly(entries: seq<Node>, s: Source)
    requires Named(entries)
    ensures s in TreeSources(entries, []) <==> exists names: seq<Bytes> :: HeldAt(entries, names, s)
  {
    if s in TreeSources(entries, []) {
      var names := SourceIsFile(entries, [], s);
      assert HeldAt(entries, names, s);
    }
    if names: seq<Bytes> :| HeldAt(entries, names, s) {
      FileIsSource(entries, [], names, s.content);
    }
  }
}
