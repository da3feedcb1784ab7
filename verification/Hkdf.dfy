// hkdfSHA256 of sdk/account/crypto.go against sections 2.2 and 2.3 of RFC 5869.

module Hkdf {
  import opened Basics
  import opened AccountTypes
  import Shamir

  const HASH_SIZE := 32

  /** T(i) of section 2.3, with the block number written as one octet. */
  function Block(c: Suite, prk: Bytes, info: Bytes, i: nat): Bytes {
    if i == 0 then [] else c.hmac(prk, Block(c, prk, info, i - 1) + info + [Shamir.Octet(i)])
  }

  /** T(1) | T(2) | ... | T(n) */
  function Blocks(c: Suite, prk: Bytes, info: Bytes, n: nat): Bytes {
    if n == 0 then [] else Blocks(c, prk, info, n - 1) + Block(c, prk, info, n)
  }

  function BlockCount(size: nat): nat { (size + HASH_SIZE - 1) / HASH_SIZE }

  lemma {:induction false} BlocksLength(c: Suite, prk: Bytes, info: Bytes, n: nat)
    requires DigestLaws(c)
    ensures |Blocks(c, prk, info, n)| == n * HASH_SIZE
  {
    if n == 0 {
    } else {
      BlocksLength(c, prk, info, n - 1);
    }
  }

  function Take(b: Bytes, n: nat): Bytes { if n <= |b| then b[..n] else b }

  /** Extract, then the first `size` octets of the expansion. */
  function Derive(c: Suite, secret: Bytes, salt: Bytes, info: Bytes, size: nat): (okm: Bytes)
  {
    Take(Blocks(c, c.hmac(salt, secret), info, BlockCount(size)), size)
  }

  lemma DeriveLength(c: Suite, secret: Bytes, salt: Bytes, info: Bytes, size: nat)
    requires DigestLaws(c)
    ensures |Derive(c, secret, salt, info, size)| == size
  {
    BlocksLength(c, c.hmac(salt, secret), info, BlockCount(size));
  }

  lemma {:induction false} BlocksAt(c: Suite, prk: Bytes, info: Bytes, n: nat, i: nat)
    requires DigestLaws(c) && 1 <= i <= n
    ensures i * HASH_SIZE <= |Blocks(c, prk, info, n)|
    ensures Blocks(c, prk, info, n)[(i - 1) * HASH_SIZE..i * HASH_SIZE] == Block(c, prk, info, i)
  {
    hide Block;
    BlocksLength(c, prk, info, n);
    var all := Blocks(c, prk, info, n);
    BlocksLength(c, prk, info, n - 1);
    var before := Blocks(c, prk, info, n - 1);
    if i < n {
      BlocksAt(c, prk, info, n - 1, i);
      assert all[(i - 1) * HASH_SIZE..i * HASH_SIZE] == before[(i - 1) * HASH_SIZE..i * HASH_SIZE];
    } else {
      assert all[|before|..] == Block(c, prk, info, n);
      assert all[|before|..] == all[(i - 1) * HASH_SIZE..i * HASH_SIZE];
    }
  }

  /**
   * The equation of section 2.3 of RFC 5869 on the output alone: each block is the HMAC of the block before it,
   * the info and the block number, keyed by the HMAC of the secret under the salt.
   */
  lemma DerivedBlock(c: Suite, secret: Bytes, salt: Bytes, info: Bytes, size: nat, i: nat)
    requires DigestLaws(c) && 1 <= i && i * HASH_SIZE <= size <= 255 * HASH_SIZE
    ensures |Derive(c, secret, salt, info, size)| == size
    ensures var okm := Derive(c, secret, salt, info, size);
            var before := if i == 1 then [] else okm[(i - 2) * HASH_SIZE..(i - 1) * HASH_SIZE];
            okm[(i - 1) * HASH_SIZE..i * HASH_SIZE] ==
              c.hmac(c.hmac(salt, secret), before + info + [Shamir.Octet(i)])
  {
    hide Block, Blocks;
    var prk, n := c.hmac(salt, secret), BlockCount(size);
    DeriveLength(c, secret, salt, info, size);
    BlocksLength(c, prk, info, n);
    var all, okm := Blocks(c, prk, info, n), Derive(c, secret, salt, info, size);
    BlocksAt(c, prk, info, n, i);
    assert okm[(i - 1) * HASH_SIZE..i * HASH_SIZE] == all[(i - 1) * HASH_SIZE..i * HASH_SIZE];
    BlockIs(c, prk, info, i);
    if i > 1 {
      BlocksAt(c, prk, info, n, i - 1);
      assert okm[(i - 2) * HASH_SIZE..(i - 1) * HASH_SIZE] == all[(i - 2) * HASH_SIZE..(i - 1) * HASH_SIZE];
    }
  }

  lemma BlockIs(c: Suite, prk: Bytes, info: Bytes, i: nat)
    requires i >= 1
    ensures Block(c, prk, info, 0) == []
    ensures Block(c, prk, info, i) == c.hmac(prk, Block(c, prk, info, i - 1) + info + [Shamir.Octet(i)])
  {
    hide Shamir.Octet;
  }

  /** A key of one block. */
  lemma DerivedKey(c: Suite, secret: Bytes, salt: Bytes, info: Bytes)
    requires DigestLaws(c)
    ensures Derive(c, secret, salt, info, HASH_SIZE) == c.hmac(c.hmac(salt, secret), info + [1])
  {
    hide Derive;
    DerivedBlock(c, secret, salt, info, HASH_SIZE, 1);
    CounterExact(HASH_SIZE, 1);
    var okm := Derive(c, secret, salt, info, HASH_SIZE);
    assert okm[..HASH_SIZE] == okm && [] + info == info;
  }

  /** Two different keyed messages with one HMAC. */
  predicate Collide(c: Suite, key: Bytes, text: Bytes, key': Bytes, text': Bytes) {
    (key, text) != (key', text') && c.hmac(key, text) == c.hmac(key', text')
  }

  /** Two one-block keys are the same exactly when all they are derived from is, or one of the two HMACs collides. */
  lemma KeysApart(c: Suite, secret: Bytes, salt: Bytes, info: Bytes, secret': Bytes, salt': Bytes, info': Bytes)
    requires DigestLaws(c)
    ensures Derive(c, secret, salt, info, HASH_SIZE) == Derive(c, secret', salt', info', HASH_SIZE) <==>
              || (secret == secret' && salt == salt' && info == info')
              || (Collide(c, salt, secret, salt', secret') && info == info')
              || Collide(c, c.hmac(salt, secret), info + [1], c.hmac(salt', secret'), info' + [1])
  {
    hide Derive;
    DerivedKey(c, secret, salt, info);
    DerivedKey(c, secret', salt', info');
    assert (info + [1])[..|info|] == info && (info' + [1])[..|info'|] == info';
  }

  /** Up to the RFC's limit of 255 blocks the octet is the block number ... */
  lemma CounterExact(size: nat, i: nat)
    requires size <= 255 * HASH_SIZE && 1 <= i <= BlockCount(size)
    ensures Shamir.Octet(i) as int == i
  {
    assert i <= 255;
    Shamir.OctetValue(i);
  }

  /** ... and one octet more makes the loop use the wrapped counter 0. */
  lemma CounterWraps(size: nat)
    requires size > 255 * HASH_SIZE
    ensures BlockCount(size) >= 256 && Shamir.Octet(256) as int == 0
  {
    Shamir.OctetValue(256);
  }

  method Zero(value: array<byte>)
    modifies value
    ensures forall i :: 0 <= i < value.Length ==> value[i] == 0
  {
    for i := 0 to value.Length
      invariant forall j :: 0 <= j < i ==> value[j] == 0
    {
      value[i] := 0;
    }
  }

  method Fill(bytes: Bytes) returns (a: array<byte>)
    ensures fresh(a) && a[..] == bytes
  {
    a := new byte[|bytes|](i requires 0 <= i < |bytes| => bytes[i]);
  }

  /** append(out[:at], block...) into spare capacity. */
  method Append(out: array<byte>, at: nat, block: array<byte>)
    requires out != block && at + block.Length <= out.Length
    modifies out
    ensures out[..at] == old(out[..at])
    ensures out[at..at + block.Length] == block[..]
  {
    for i := 0 to block.Length
      invariant out[..at] == old(out[..at])
      invariant forall j :: 0 <= j < i ==> out[at + j] == block[j]
    {
      out[at + i] := block[i];
    }
  }

  /** One round of the expansion: the next block, written behind the earlier ones. */
  method Round(c: Suite, extracted: array<byte>, previous: array<byte>, info: Bytes, counter: byte, out: array<byte>,
               at: nat, ghost n: nat)
    returns (next: array<byte>)
    requires DigestLaws(c)
    requires out != extracted && out != previous
    requires at == n * HASH_SIZE && at + HASH_SIZE <= out.Length && counter == Shamir.Octet(n + 1)
    requires previous[..] == Block(c, extracted[..], info, n)
    requires out[..n * HASH_SIZE] == Blocks(c, extracted[..], info, n)
    modifies out
    ensures fresh(next) && next.Length == HASH_SIZE
    ensures next[..] == Block(c, extracted[..], info, n + 1)
    ensures out[..(n + 1) * HASH_SIZE] == Blocks(c, extracted[..], info, n + 1)
  {
    hide Shamir.Octet;
    next := Fill(c.hmac(extracted[..], previous[..] + info + [counter]));
    Append(out, at, next);
    assert out[..at + HASH_SIZE] == out[..at] + out[at..at + HASH_SIZE];
  }

  /** The expansion loop over byte buffers, with Go's one-byte counter. */
  method Expand(c: Suite, extracted: array<byte>, info: Bytes, size: nat)
    returns (out: array<byte>, previous: array<byte>)
    requires DigestLaws(c)
    ensures fresh(out) && fresh(previous) && out != previous
    ensures out.Length == BlockCount(size) * HASH_SIZE
    ensures out[..] == Blocks(c, extracted[..], info, BlockCount(size))
    ensures size > 0 ==> previous.Length == HASH_SIZE
  {
    hide Block, Blocks;
    out := new byte[BlockCount(size) * HASH_SIZE];
    previous := new byte[0];
    assert previous[..] == Block(c, extracted[..], info, 0) by { NoBlocks(c, extracted[..], info); }
    assert out[..0] == Blocks(c, extracted[..], info, 0) by { NoBlocks(c, extracted[..], info); }
    var length := 0;
    var counter: byte := 1;
    ghost var n := 0;
    while length < size
      invariant length == n * HASH_SIZE && n <= BlockCount(size)
      invariant counter == Shamir.Octet(n + 1)
      invariant fresh(previous) && out != previous && out != extracted
      invariant previous[..] == Block(c, extracted[..], info, n)
      invariant n > 0 ==> previous.Length == HASH_SIZE
      invariant length <= out.Length && out[..length] == Blocks(c, extracted[..], info, n)
      decreases BlockCount(size) - n
    {
      previous := Round(c, extracted, previous, info, counter, out, length, n);
      length := length + HASH_SIZE;
      n := n + 1;
      counter := counter + 1;
    }
    assert n == BlockCount(size) && out[..length] == out[..];
  }

  lemma NoBlocks(c: Suite, prk: Bytes, info: Bytes)
    ensures Block(c, prk, info, 0) == [] == Blocks(c, prk, info, 0)
  {
  }

  /** The returned slice is out[..size]; wiping the extracted key and the last block leaves it intact. */
  method HkdfSha256(c: Suite, secret: Bytes, salt: Bytes, info: Bytes, size: nat)
    returns (out: array<byte>, ghost prk: array<byte>, ghost previous: array<byte>)
    requires DigestLaws(c)
    ensures fresh(out) && fresh(prk) && fresh(previous)
    ensures size <= out.Length && out[..size] == Derive(c, secret, salt, info, size)
    ensures prk.Length == HASH_SIZE && (size > 0 ==> previous.Length == HASH_SIZE)
    ensures forall i :: 0 <= i < prk.Length ==> prk[i] == 0
    ensures forall i :: 0 <= i < previous.Length ==> previous[i] == 0
  {
    hide Block, Blocks;
    var extracted := Fill(c.hmac(salt, secret));
    var buffer, last := Expand(c, extracted, info, size);
    Zero(last);
    Zero(extracted);
    assert buffer[..size] == buffer[..][..size];
    out, prk, previous := buffer, extracted, last;
  }
}
