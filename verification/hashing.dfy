/**
  A hash as its users see it: a context that is fed and then finished.  SHA-256
  itself stays an unknown function.
 */
module Hashing {
  import opened BigEndian

  type Hash = bytes -> bytes

  class HashContext {
    const hash: Hash
    var fed: bytes

    constructor (hash: Hash)
      ensures this.hash == hash && fed == []
    {
      this.hash := hash;
      fed := [];
    }

    method Update(b: bytes)
      modifies this
      ensures fed == old(fed) + b
    {
      fed := fed + b;
    }

    method Final() returns (digest: bytes)
      ensures digest == hash(fed)
    {
      return hash(fed);
    }
  }

  // ----- the crypto library of the device -----

  // result codes; zero is success
  const TEE_SUCCESS: nat := 0
  const TEE_ERROR_OUT_OF_MEMORY: nat := 0xffff_000c
  const TEE_ERROR_SHORT_BUFFER: nat := 0xffff_0010

  const SHA256_SIZE: nat := 32

  /** Any of its calls may fail: answers holds what they return, in the order in which they are made. */
  class CryptoHash {
    const hash: Hash
    const answers: nat -> nat
    var calls: nat
    var fed: bytes

    constructor (hash: Hash, answers: nat -> nat)
      ensures this.hash == hash && this.answers == answers && calls == 0
    {
      this.hash := hash;
      this.answers := answers;
      calls := 0;
      fed := [];
    }

    method AllocCtx() returns (res: nat)
      modifies this
      ensures calls == old(calls) + 1 && res == answers(old(calls))
    {
      calls := calls + 1;
      return answers(calls - 1);
    }

    method Init() returns (res: nat)
      modifies this
      ensures calls == old(calls) + 1 && res == answers(old(calls))
      ensures res == TEE_SUCCESS ==> fed == []
    {
      calls := calls + 1;
      fed := [];
      return answers(calls - 1);
    }

    method Update(b: bytes) returns (res: nat)
      modifies this
      ensures calls == old(calls) + 1 && res == answers(old(calls))
      ensures res == TEE_SUCCESS ==> fed == old(fed) + b
    {
      calls := calls + 1;
      res := answers(calls - 1);
      if res == TEE_SUCCESS {
        fed := fed + b;
      }
    }

    method Final() returns (res: nat, digest: bytes)
      modifies this
      ensures calls == old(calls) + 1 && res == answers(old(calls))
      ensures res == TEE_SUCCESS ==> digest == hash(old(fed))
    {
      calls := calls + 1;
      res, digest := answers(calls - 1), [];
      if res == TEE_SUCCESS {
        digest := hash(fed);
      }
    }
  }

  /** What the first of n calls that fails returns; success when none does. */
  function FirstError(answers: nat -> nat, n: nat): nat {
    if n == 0 then TEE_SUCCESS
    else if FirstError(answers, n - 1) != TEE_SUCCESS then FirstError(answers, n - 1)
    else answers(n - 1)
  }

  lemma {:induction false} FirstErrorIs(answers: nat -> nat, n: nat)
    ensures FirstError(answers, n) == 0 <==> forall k :: 0 <= k < n ==> answers(k) == 0
    ensures FirstError(answers, n) != 0 ==>
              exists k :: 0 <= k < n && answers(k) == FirstError(answers, n) && forall j :: 0 <= j < k ==>
                  answers(j) == 0
  {
    if n > 0 {
      FirstErrorIs(answers, n - 1);
    }
  }

  /** It is passed on, however many calls might have come behind it. */
  lemma {:induction false} FirstErrorStays(answers: nat -> nat, k: nat, n: nat)
    requires k <= n && FirstError(answers, k) != TEE_SUCCESS
    ensures FirstError(answers, n) == FirstError(answers, k)
    decreases n
  {
    if k < n {
      FirstErrorStays(answers, k, n - 1);
    }
  }

  datatype HashResult = Digest(digest: bytes) | Failed(code: nat)

  /** What the updates with a list of byte strings feed to a context. */
  function Concat(parts: seq<bytes>): bytes {
    if parts == [] then [] else Concat(parts[..|parts| - 1]) + parts[|parts| - 1]
  }

  lemma ConcatMore(parts: seq<bytes>, k: nat)
    requires k < |parts|
    ensures Concat(parts[..k + 1]) == Concat(parts[..k]) + parts[k]
  {
    assert parts[..k + 1][..k] == parts[..k];
  }
}
