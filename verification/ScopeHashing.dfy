/**
 * Byte strings fed to SHA-256 for the three kinds of authorization scope. The digest itself
 * is left uninterpreted: a hash is represented by exactly the bytes it was computed from.
 */
module ScopeHashing {
  import opened Bytes
  import opened ProcessModel
  import opened Wrappers

  datatype ScopeHash = ScopeHash(preimage: bytes)

  datatype AuthorizationScope =
    AuthorizationScope(uid: u32, anchor: Instance, chain: seq<StableIdentity>)

  const SCOPE_DOMAIN := "monopass-authorization-scope-v1\0"
  const ORIGINATING_DOMAIN := "monopass-authorization-originating-process-v1\0"
  const INSECURE_DOMAIN := "monopass-authorization-insecure-all-v1\0"

  /** The bytes of an ASCII literal. */
  function Ascii(s: string): (b: bytes)
    ensures |b| == |s|
    ensures forall i :: 0 <= i < |s| && s[i] < 128 as char ==> b[i] == s[i] as int
  {
    seq(|s|, i requires 0 <= i < |s| => s[i] as int % 128)
  }

  function InstanceBytes(instance: Instance): (b: bytes)
    ensures |b| == 20
  {
    I32Bytes(instance.pid) + U64Bytes(instance.startPrimary) + U64Bytes(instance.startSecondary)
  }

  function GenerationBytes(generation: Option<u32>): bytes {
    match generation
    case Some(g) => [1] + U32Bytes(g)
    case None => [0]
  }

  function ExecutableBytes(e: Executable): bytes {
    U64Bytes(e.device) + (U64Bytes(e.inode) + (GenerationBytes(e.generation) + ExecutableTail(e)))
  }

  /** The fixed-width fields that follow the optional generation. */
  function ExecutableTail(e: Executable): (b: bytes)
    ensures |b| == 40
  {
    U64Bytes(e.size) + (I64Bytes(e.modifiedSeconds) + (I64Bytes(e.modifiedNanoseconds) +
    (I64Bytes(e.changedSeconds) + I64Bytes(e.changedNanoseconds))))
  }

  function IdentityBytes(identity: StableIdentity): (b: bytes)
    ensures b != []
  {
    match identity
    case ByExecutable(e) => [1] + ExecutableBytes(e)
    case ByInstance(i) => [2] + InstanceBytes(i)
  }

  function ChainBytes(chain: seq<StableIdentity>): bytes {
    if chain == [] then [] else IdentityBytes(chain[0]) + ChainBytes(chain[1..])
  }

  /** `len() as u64` keeps the low 64 bits. */
  function LengthBytes(n: nat): (b: bytes)
    ensures |b| == 8
  {
    U64Bytes(n % 0x1_0000_0000_0000_0000)
  }

  function ScopeBody(scope: AuthorizationScope): bytes {
    U32Bytes(scope.uid) + (InstanceBytes(scope.anchor) +
    (LengthBytes(|scope.chain|) + ChainBytes(scope.chain)))
  }

  lemma InstanceBytesInjective(a: Instance, b: Instance)
    requires InstanceBytes(a) == InstanceBytes(b)
    ensures a == b
  {
    var ra := U64Bytes(a.startPrimary) + U64Bytes(a.startSecondary);
    var rb := U64Bytes(b.startPrimary) + U64Bytes(b.startSecondary);
    assert InstanceBytes(a) == I32Bytes(a.pid) + ra;
    assert InstanceBytes(b) == I32Bytes(b.pid) + rb;
    SplitEqual(I32Bytes(a.pid), I32Bytes(b.pid), ra, rb);
    SplitEqual(U64Bytes(a.startPrimary), U64Bytes(b.startPrimary),
               U64Bytes(a.startSecondary), U64Bytes(b.startSecondary));
    I32BytesInjective(a.pid, b.pid);
    U64BytesInjective(a.startPrimary, b.startPrimary);
    U64BytesInjective(a.startSecondary, b.startSecondary);
  }

  lemma ExecutableTailInjective(a: Executable, b: Executable)
    requires ExecutableTail(a) == ExecutableTail(b)
    ensures a.size == b.size
    ensures a.modifiedSeconds == b.modifiedSeconds && a.modifiedNanoseconds == b.modifiedNanoseconds
    ensures a.changedSeconds == b.changedSeconds && a.changedNanoseconds == b.changedNanoseconds
  {
    var a3, b3 := I64Bytes(a.changedSeconds) + I64Bytes(a.changedNanoseconds),
                  I64Bytes(b.changedSeconds) + I64Bytes(b.changedNanoseconds);
    var a2, b2 := I64Bytes(a.modifiedNanoseconds) + a3, I64Bytes(b.modifiedNanoseconds) + b3;
    var a1, b1 := I64Bytes(a.modifiedSeconds) + a2, I64Bytes(b.modifiedSeconds) + b2;
    SplitEqual(U64Bytes(a.size), U64Bytes(b.size), a1, b1);
    SplitEqual(I64Bytes(a.modifiedSeconds), I64Bytes(b.modifiedSeconds), a2, b2);
    SplitEqual(I64Bytes(a.modifiedNanoseconds), I64Bytes(b.modifiedNanoseconds), a3, b3);
    SplitEqual(I64Bytes(a.changedSeconds), I64Bytes(b.changedSeconds),
               I64Bytes(a.changedNanoseconds), I64Bytes(b.changedNanoseconds));
    U64BytesInjective(a.size, b.size);
    I64BytesInjective(a.modifiedSeconds, b.modifiedSeconds);
    I64BytesInjective(a.modifiedNanoseconds, b.modifiedNanoseconds);
    I64BytesInjective(a.changedSeconds, b.changedSeconds);
    I64BytesInjective(a.changedNanoseconds, b.changedNanoseconds);
  }

  lemma GenerationPrefixFree(a: Option<u32>, b: Option<u32>, x: bytes, y: bytes)
    requires GenerationBytes(a) + x == GenerationBytes(b) + y
    ensures a == b && x == y
  {
    assert (GenerationBytes(a) + x)[0] == GenerationBytes(a)[0];
    assert (GenerationBytes(b) + y)[0] == GenerationBytes(b)[0];
    SplitEqual(GenerationBytes(a), GenerationBytes(b), x, y);
    if a.Some? {
      SplitEqual([1], [1], U32Bytes(a.value), U32Bytes(b.value));
      U32BytesInjective(a.value, b.value);
    }
  }

  lemma ExecutablePrefixFree(a: Executable, b: Executable, x: bytes, y: bytes)
    requires ExecutableBytes(a) + x == ExecutableBytes(b) + y
    ensures a == b && x == y
  {
    hide U64Bytes, GenerationBytes, ExecutableTail;
    var ta, tb := ExecutableTail(a) + x, ExecutableTail(b) + y;
    ExecutableBytesThen(a, x);
    ExecutableBytesThen(b, y);
    SplitEqual(U64Bytes(a.device), U64Bytes(b.device),
               U64Bytes(a.inode) + (GenerationBytes(a.generation) + ta),
               U64Bytes(b.inode) + (GenerationBytes(b.generation) + tb));
    SplitEqual(U64Bytes(a.inode), U64Bytes(b.inode),
               GenerationBytes(a.generation) + ta, GenerationBytes(b.generation) + tb);
    GenerationPrefixFree(a.generation, b.generation, ta, tb);
    SplitEqual(ExecutableTail(a), ExecutableTail(b), x, y);
    U64BytesInjective(a.device, b.device);
    U64BytesInjective(a.inode, b.inode);
    ExecutableTailInjective(a, b);
  }

  lemma ExecutableBytesThen(e: Executable, x: bytes)
    ensures ExecutableBytes(e) + x ==
      U64Bytes(e.device) + (U64Bytes(e.inode) + (GenerationBytes(e.generation) + (ExecutableTail(e) + x)))
  {
    hide U64Bytes, GenerationBytes, ExecutableTail;
    var d, i, g, t := U64Bytes(e.device), U64Bytes(e.inode), GenerationBytes(e.generation), ExecutableTail(e);
    Assoc(d, i + (g + t), x);
    Assoc(i, g + t, x);
    Assoc(g, t, x);
  }

  lemma TagFirst(tag: byte, rest: bytes, tail: bytes)
    ensures [tag] + rest + tail == [tag] + (rest + tail)
    ensures ([tag] + rest + tail)[0] == tag
  {
  }

  function Tag(identity: StableIdentity): byte {
    if identity.ByExecutable? then 1 else 2
  }

  function Untagged(identity: StableIdentity): bytes {
    match identity
    case ByExecutable(e) => ExecutableBytes(e)
    case ByInstance(i) => InstanceBytes(i)
  }

  /** Tagged identities form a prefix-free code, so a chain of them reads back one way only. */
  lemma IdentityPrefixFree(a: StableIdentity, b: StableIdentity, x: bytes, y: bytes)
    requires IdentityBytes(a) + x == IdentityBytes(b) + y
    ensures a == b && x == y
  {
    TagFirst(Tag(a), Untagged(a), x);
    TagFirst(Tag(b), Untagged(b), y);
    SplitEqual([Tag(a)], [Tag(b)], Untagged(a) + x, Untagged(b) + y);
    UntaggedPrefixFree(a, b, x, y);
  }

  lemma UntaggedPrefixFree(a: StableIdentity, b: StableIdentity, x: bytes, y: bytes)
    requires Tag(a) == Tag(b) && Untagged(a) + x == Untagged(b) + y
    ensures a == b && x == y
  {
    if a.ByExecutable? {
      ExecutablePrefixFree(a.executable, b.executable, x, y);
    } else {
      SplitEqual(Untagged(a), Untagged(b), x, y);
      InstanceBytesInjective(a.instance, b.instance);
    }
  }

  lemma {:induction false} ChainBytesInjective(a: seq<StableIdentity>, b: seq<StableIdentity>)
    requires ChainBytes(a) == ChainBytes(b)
    ensures a == b
  {
    hide IdentityBytes;
    if a != [] && b != [] {
      IdentityPrefixFree(a[0], b[0], ChainBytes(a[1..]), ChainBytes(b[1..]));
      ChainBytesInjective(a[1..], b[1..]);
      assert a == [a[0]] + a[1..] && b == [b[0]] + b[1..];
    }
  }

  lemma ScopeBodyInjective(a: AuthorizationScope, b: AuthorizationScope)
    requires ScopeBody(a) == ScopeBody(b)
    ensures a == b
  {
    hide InstanceBytes, LengthBytes, ChainBytes, U32Bytes;
    var ca, cb := LengthBytes(|a.chain|) + ChainBytes(a.chain), LengthBytes(|b.chain|) + ChainBytes(b.chain);
    var ra, rb := InstanceBytes(a.anchor) + ca, InstanceBytes(b.anchor) + cb;
    assert ScopeBody(a) == U32Bytes(a.uid) + ra;
    assert ScopeBody(b) == U32Bytes(b.uid) + rb;
    SplitEqual(U32Bytes(a.uid), U32Bytes(b.uid), ra, rb);
    SplitEqual(InstanceBytes(a.anchor), InstanceBytes(b.anchor), ca, cb);
    SplitEqual(LengthBytes(|a.chain|), LengthBytes(|b.chain|), ChainBytes(a.chain), ChainBytes(b.chain));
    U32BytesInjective(a.uid, b.uid);
    InstanceBytesInjective(a.anchor, b.anchor);
    ChainBytesInjective(a.chain, b.chain);
  }

  /** The domain strings part ways right after their common stem. */
  lemma DomainsDiffer()
    ensures |SCOPE_DOMAIN| > 23 && SCOPE_DOMAIN[23] == 's'
    ensures |ORIGINATING_DOMAIN| > 23 && ORIGINATING_DOMAIN[23] == 'o'
    ensures |INSECURE_DOMAIN| > 23 && INSECURE_DOMAIN[23] == 'i'
  {
  }

  lemma AsciiPrefix(domain: string, rest: bytes, k: nat)
    requires k < |domain| && domain[k] < 128 as char
    ensures |Ascii(domain) + rest| > k && (Ascii(domain) + rest)[k] == domain[k] as int
  {
  }

  /** Everything an authorization can be granted to. */
  datatype Grantee =
    | ProcessChain(scope: AuthorizationScope)
    | OriginatingProcess(uid: u32, instance: Instance)
    | InsecureAllOf(user: u32)
  {
    function Domain(): string {
      match this
      case ProcessChain(_) => SCOPE_DOMAIN
      case OriginatingProcess(_, _) => ORIGINATING_DOMAIN
      case InsecureAllOf(_) => INSECURE_DOMAIN
    }

    function Body(): bytes {
      match this
      case ProcessChain(scope) => ScopeBody(scope)
      case OriginatingProcess(uid, instance) => U32Bytes(uid) + InstanceBytes(instance)
      case InsecureAllOf(uid) => U32Bytes(uid)
    }

    function Preimage(): bytes {
      Ascii(Domain()) + Body()
    }
  }

  /**
   * The bytes fed to SHA-256 determine the grantee: neither two chains, nor two processes,
   * nor scopes of different kinds can ever be hashed from the same input.
   */
  lemma PreimageInjective(a: Grantee, b: Grantee)
    requires a.Preimage() == b.Preimage()
    ensures a == b
  {
    hide Ascii, SCOPE_DOMAIN, ORIGINATING_DOMAIN, INSECURE_DOMAIN, Grantee.Body;
    DomainsDiffer();
    AsciiPrefix(a.Domain(), a.Body(), 23);
    AsciiPrefix(b.Domain(), b.Body(), 23);
    SplitEqual(Ascii(a.Domain()), Ascii(b.Domain()), a.Body(), b.Body());
    BodyInjective(a, b);
  }

  lemma BodyInjective(a: Grantee, b: Grantee)
    requires a.ProcessChain? == b.ProcessChain? && a.InsecureAllOf? == b.InsecureAllOf?
    requires a.Body() == b.Body()
    ensures a == b
  {
    hide U32Bytes, InstanceBytes, ScopeBody;
    match a {
      case ProcessChain(scope) =>
        ScopeBodyInjective(scope, b.scope);
      case OriginatingProcess(uid, instance) =>
        SplitEqual(U32Bytes(uid), U32Bytes(b.uid), InstanceBytes(instance), InstanceBytes(b.instance));
        U32BytesInjective(uid, b.uid);
        InstanceBytesInjective(instance, b.instance);
      case InsecureAllOf(uid) =>
        U32BytesInjective(uid, b.user);
    }
  }

  /** The incremental hasher: a buffer of everything fed so far. */
  class Sha256 {
    var fed: bytes

    constructor ()
      ensures fed == []
    {
      fed := [];
    }

    method Update(data: bytes)
      modifies this
      ensures fed == old(fed) + data
    {
      fed := fed + data;
    }

    method Finalize() returns (hash: ScopeHash)
      ensures hash == ScopeHash(fed)
    {
      hash := ScopeHash(fed);
    }
  }

  method InsecureAll(uid: u32) returns (hash: ScopeHash)
    ensures hash == ScopeHash(InsecureAllOf(uid).Preimage())
  {
    hide Ascii, U32Bytes, INSECURE_DOMAIN;
    var hasher := new Sha256();
    hasher.Update(Ascii(INSECURE_DOMAIN));
    hasher.Update(U32Bytes(uid));
    hash := hasher.Finalize();
  }

  method HashInstance(hasher: Sha256, instance: Instance)
    modifies hasher
    ensures hasher.fed == old(hasher.fed) + InstanceBytes(instance)
  {
    hasher.Update(I32Bytes(instance.pid));
    hasher.Update(U64Bytes(instance.startPrimary));
    hasher.Update(U64Bytes(instance.startSecondary));
  }

  method HashGeneration(hasher: Sha256, generation: Option<u32>)
    modifies hasher
    ensures hasher.fed == old(hasher.fed) + GenerationBytes(generation)
  {
    hide U32Bytes;
    match generation {
      case Some(g) =>
        hasher.Update([1]);
        hasher.Update(U32Bytes(g));
        Assoc(old(hasher.fed), [1], U32Bytes(g));
      case None =>
        hasher.Update([0]);
    }
  }

  method HashExecutable(hasher: Sha256, e: Executable)
    modifies hasher
    ensures hasher.fed == old(hasher.fed) + ExecutableBytes(e)
  {
    hide U64Bytes, I64Bytes, GenerationBytes;
    hasher.Update(U64Bytes(e.device));
    hasher.Update(U64Bytes(e.inode));
    HashGeneration(hasher, e.generation);
    label middle:
    hasher.Update(U64Bytes(e.size));
    hasher.Update(I64Bytes(e.modifiedSeconds));
    hasher.Update(I64Bytes(e.modifiedNanoseconds));
    hasher.Update(I64Bytes(e.changedSeconds));
    hasher.Update(I64Bytes(e.changedNanoseconds));
    ghost var front := old@middle(hasher.fed);
    Reassociate5(front, U64Bytes(e.size), I64Bytes(e.modifiedSeconds), I64Bytes(e.modifiedNanoseconds),
      I64Bytes(e.changedSeconds), I64Bytes(e.changedNanoseconds));
    Reassociate4(old(hasher.fed), U64Bytes(e.device), U64Bytes(e.inode), GenerationBytes(e.generation),
      ExecutableTail(e));
  }

  lemma Reassociate4(front: bytes, a: bytes, b: bytes, c: bytes, d: bytes)
    ensures (((front + a) + b) + c) + d == front + (a + (b + (c + d)))
  {
    Assoc(front, a, b + (c + d));
    Assoc(front + a, b, c + d);
    Assoc((front + a) + b, c, d);
  }

  lemma Reassociate5(front: bytes, a: bytes, b: bytes, c: bytes, d: bytes, e: bytes)
    ensures ((((front + a) + b) + c) + d) + e == front + (a + (b + (c + (d + e))))
  {
    Assoc(front, a, b + (c + (d + e)));
    Assoc(front + a, b, c + (d + e));
    Assoc((front + a) + b, c, d + e);
    Assoc(((front + a) + b) + c, d, e);
  }

  lemma ChainBytesSnoc(chain: seq<StableIdentity>, last: StableIdentity)
    ensures ChainBytes(chain + [last]) == ChainBytes(chain) + IdentityBytes(last)
  {
    hide IdentityBytes;
    if chain == [] {
      assert ChainBytes([last]) == IdentityBytes(last) + ChainBytes([]);
    } else {
      assert (chain + [last])[1..] == chain[1..] + [last];
      ChainBytesSnoc(chain[1..], last);
      Assoc(IdentityBytes(chain[0]), ChainBytes(chain[1..]), IdentityBytes(last));
    }
  }

  method HashIdentity(hasher: Sha256, identity: StableIdentity)
    modifies hasher
    ensures hasher.fed == old(hasher.fed) + IdentityBytes(identity)
  {
    hide InstanceBytes, ExecutableBytes;
    match identity {
      case ByExecutable(e) =>
        hasher.Update([1]);
        HashExecutable(hasher, e);
      case ByInstance(instance) =>
        hasher.Update([2]);
        HashInstance(hasher, instance);
    }
  }

  method HashChain(hasher: Sha256, chain: seq<StableIdentity>)
    modifies hasher
    ensures hasher.fed == old(hasher.fed) + ChainBytes(chain)
  {
    assert ChainBytes(chain[..0]) == [];
    hide *;
    for i := 0 to |chain|
      invariant hasher.fed == old(hasher.fed) + ChainBytes(chain[..i])
    {
      HashIdentity(hasher, chain[i]);
      assert chain[..i + 1] == chain[..i] + [chain[i]];
      ChainBytesSnoc(chain[..i], chain[i]);
      Assoc(old(hasher.fed), ChainBytes(chain[..i]), IdentityBytes(chain[i]));
    }
    assert chain[..|chain|] == chain;
  }

  lemma ScopeFields(scope: AuthorizationScope)
    ensures ProcessChain(scope).Preimage() ==
      Ascii(SCOPE_DOMAIN) + (U32Bytes(scope.uid) + (InstanceBytes(scope.anchor) +
      (LengthBytes(|scope.chain|) + ChainBytes(scope.chain))))
  {
    hide Ascii, U32Bytes, InstanceBytes, LengthBytes, ChainBytes, SCOPE_DOMAIN;
  }

  method HashAuthorizationScope(scope: AuthorizationScope) returns (hash: ScopeHash)
    ensures hash == ScopeHash(ProcessChain(scope).Preimage())
  {
    hide *;
    var hasher := new Sha256();
    hasher.Update(Ascii(SCOPE_DOMAIN));
    hasher.Update(U32Bytes(scope.uid));
    HashInstance(hasher, scope.anchor);
    hasher.Update(LengthBytes(|scope.chain|));
    HashChain(hasher, scope.chain);
    Reassociate4(Ascii(SCOPE_DOMAIN), U32Bytes(scope.uid), InstanceBytes(scope.anchor),
      LengthBytes(|scope.chain|), ChainBytes(scope.chain));
    ScopeFields(scope);
    hash := hasher.Finalize();
  }

  method HashOriginatingProcess(uid: u32, process: ProcessInfo) returns (hash: ScopeHash)
    ensures hash == ScopeHash(OriginatingProcess(uid, process.instance).Preimage())
  {
    hide Ascii, U32Bytes, InstanceBytes, ORIGINATING_DOMAIN;
    var hasher := new Sha256();
    hasher.Update(Ascii(ORIGINATING_DOMAIN));
    hasher.Update(U32Bytes(uid));
    HashInstance(hasher, process.instance);
    Assoc(Ascii(ORIGINATING_DOMAIN), U32Bytes(uid), InstanceBytes(process.instance));
    hash := hasher.Finalize();
  }

  // ----- where everything is in the bytes -----

  lemma InstanceLayout(i: Instance)
    ensures var b := InstanceBytes(i);
      && b[..4] == I32Bytes(i.pid)
      && NumberOf(b[4..12]) == i.startPrimary && NumberOf(b[12..20]) == i.startSecondary
  {
    var b := InstanceBytes(i);
    U64Reads(i.startPrimary);
    U64Reads(i.startSecondary);
    assert b[4..12] == U64Bytes(i.startPrimary) && b[12..20] == U64Bytes(i.startSecondary);
  }

  lemma GenerationLayout(g: Option<u32>)
    ensures match g
      case None => GenerationBytes(g) == [0]
      case Some(n) => |GenerationBytes(g)| == 5 && GenerationBytes(g)[0] == 1 && NumberOf(GenerationBytes(g)[1..]) == n
  {
    if g.Some? {
      U32Reads(g.value);
    }
  }

  lemma ExecutableLayout(e: Executable)
    ensures
      var b, g := ExecutableBytes(e), |GenerationBytes(e.generation)|;
      && |b| == 16 + g + 40
      && NumberOf(b[0..8]) == e.device && NumberOf(b[8..16]) == e.inode
      && b[16..16 + g] == GenerationBytes(e.generation)
      && b[16 + g..] == ExecutableTail(e)
  {
    var b, g := ExecutableBytes(e), |GenerationBytes(e.generation)|;
    U64Reads(e.device);
    U64Reads(e.inode);
    assert b[0..8] == U64Bytes(e.device) && b[8..16] == U64Bytes(e.inode);
    hide ExecutableTail, GenerationBytes;
    assert b[16..16 + g] == GenerationBytes(e.generation);
    assert b[16 + g..] == ExecutableTail(e);
  }

  lemma ExecutableTailLayout(e: Executable)
    ensures
      var b := ExecutableTail(e);
      && NumberOf(b[0..8]) == e.size
      && b[8..16] == I64Bytes(e.modifiedSeconds) && b[16..24] == I64Bytes(e.modifiedNanoseconds)
      && b[24..32] == I64Bytes(e.changedSeconds) && b[32..40] == I64Bytes(e.changedNanoseconds)
  {
    U64Reads(e.size);
    assert ExecutableTail(e)[0..8] == U64Bytes(e.size);
  }

  lemma IdentityLayout(identity: StableIdentity)
    ensures match identity
      case ByExecutable(e) => IdentityBytes(identity)[0] == 1 && IdentityBytes(identity)[1..] == ExecutableBytes(e)
      case ByInstance(i) => IdentityBytes(identity)[0] == 2 && IdentityBytes(identity)[1..] == InstanceBytes(i)
  {
  }

  lemma ScopeLayout(scope: AuthorizationScope)
    requires |scope.chain| < 18446744073709551616
    ensures
      var b := ScopeBody(scope);
      && |b| >= 32
      && NumberOf(b[0..4]) == scope.uid && b[4..24] == InstanceBytes(scope.anchor)
      && NumberOf(b[24..32]) == |scope.chain| && b[32..] == ChainBytes(scope.chain)
  {
    var b := ScopeBody(scope);
    U32Reads(scope.uid);
    U64Reads(|scope.chain|);
    LengthReads(|scope.chain|);
    FourParts(U32Bytes(scope.uid), InstanceBytes(scope.anchor), LengthBytes(|scope.chain|), ChainBytes(scope.chain));
    hide InstanceBytes, ChainBytes, U32Bytes, U64Bytes, LengthBytes, NumberOf;
  }

  lemma LengthReads(n: nat)
    requires n < 18446744073709551616
    ensures NumberOf(LengthBytes(n)) == n
  {
    assert n % 0x1_0000_0000_0000_0000 == n;
    U64Reads(n);
    hide U64Bytes, NumberOf;
  }

  lemma FourParts(a: bytes, b: bytes, c: bytes, d: bytes)
    requires |a| == 4 && |b| == 20 && |c| == 8
    ensures
      var whole := a + (b + (c + d));
      |whole| >= 32 && whole[0..4] == a && whole[4..24] == b && whole[24..32] == c && whole[32..] == d
  {
  }

  /** Each kind of grantee starts with its own text, closed by a NUL. */
  lemma PreimageLayout(g: Grantee)
    ensures
      var text := match g
        case ProcessChain(_) => "monopass-authorization-scope-v1\0"
        case OriginatingProcess(_, _) => "monopass-authorization-originating-process-v1\0"
        case InsecureAllOf(_) => "monopass-authorization-insecure-all-v1\0";
      var n := |text|;
      && |g.Preimage()| >= n
      && (forall i :: 0 <= i < n ==> g.Preimage()[i] == text[i] as int)
      && match g
         case ProcessChain(scope) => g.Preimage()[n..] == ScopeBody(scope)
         case OriginatingProcess(uid, instance) => g.Preimage()[n..] == U32Bytes(uid) + InstanceBytes(instance)
         case InsecureAllOf(uid) => g.Preimage()[n..] == U32Bytes(uid)
  {
    hide ScopeBody, InstanceBytes, U32Bytes;
  }
}
