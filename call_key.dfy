/** Call-site identity (kyute/src/call_key.rs): a stack of 64-bit keys, each new
    key a hash of the two keys on top of the stack and of the caller's source
    location with a disambiguating index. */
module CallKeys {
  import opened Wrappers

  /** `std::panic::Location`: the source position of a call. */
  datatype Location = Location(file: string, line: nat, column: nat)

  /** `CallKey(u64)`. */
  datatype CallKey = CallKey(bits: u64)

  /** The hash that `chain_hash` feeds `key0`, `key1` and `(location, index)` to.
      `DefaultHasher` is not modelled: the stack takes the hash as a parameter
      and nothing is assumed about it. */
  type Hasher = (u64, u64, Location, nat) -> u64

  /** The entry `depth` places below the top of `stack`, or 0 when the stack is
      not that deep. */
  function Below(stack: seq<u64>, depth: nat): (r: u64)
    ensures depth < |stack| ==> r == stack[|stack| - 1 - depth]
    ensures |stack| <= depth ==> r == 0
  {
    if depth < |stack| then stack[|stack| - 1 - depth] else 0
  }

  /** `chain_hash`: the key of a call made at `(location, index)` with `stack` as
      the enclosing keys. */
  function ChainHash(hash: Hasher, stack: seq<u64>, location: Location, index: nat): u64
  {
    hash(Below(stack, 0), Below(stack, 1), location, index)
  }

  /** The key depends on the two entries on top of the stack and on nothing
      deeper. */
  lemma {:induction false} ChainHashTopTwo(hash: Hasher, s: seq<u64>, t: seq<u64>, location: Location, index: nat)
    requires Below(s, 0) == Below(t, 0) && Below(s, 1) == Below(t, 1)
    ensures ChainHash(hash, s, location, index) == ChainHash(hash, t, location, index)
  {
  }

  /** Entries below the top two never influence the key. */
  lemma {:induction false} ChainHashIgnoresDeeper(hash: Hasher, deeper: seq<u64>, top: seq<u64>, location: Location, index: nat)
    requires |top| >= 2
    ensures ChainHash(hash, deeper + top, location, index) == ChainHash(hash, top, location, index)
  {
    var s := deeper + top;
    assert s[|s| - 1] == top[|top| - 1];
    assert s[|s| - 2] == top[|top| - 2];
  }

  /** `CallKeyStack(Vec<u64>)`. */
  class CallKeyStack {
    const hash: Hasher
    var stack: seq<u64>

    /** `CallKeyStack::new`. */
    constructor (hash: Hasher)
      ensures this.hash == hash && stack == []
    {
      this.hash := hash;
      stack := [];
    }

    /** Emptiness test used by `Cache::run` to check that `enter` and `exit`
        were balanced. */
    predicate IsEmpty()
      reads this
    {
      |stack| == 0
    }

    /** `CallKeyStack::enter`: pushes the key of the call at `(location, index)`
        and returns it. */
    method Enter(location: Location, index: nat) returns (key: CallKey)
      modifies this
      ensures key == CallKey(ChainHash(hash, old(stack), location, index))
      ensures stack == old(stack) + [key.bits]
      ensures Current() == Ok(key)
    {
      var bits := ChainHash(hash, stack, location, index);
      stack := stack + [bits];
      key := CallKey(bits);
    }

    /** `CallKeyStack::exit`: `Vec::pop`, which does nothing on an empty stack. */
    method Exit()
      modifies this
      ensures old(stack) == [] ==> stack == []
      ensures old(stack) != [] ==> stack == old(stack)[..|old(stack)| - 1]
    {
      if |stack| > 0 {
        stack := stack[..|stack| - 1];
      }
    }

    /** `CallKeyStack::current`: the top key; `unwrap` panics on an empty stack. */
    function Current(): (r: Result<CallKey>)
      reads this
      ensures r.Panic? <==> stack == []
      ensures r.Ok? ==> r.value.bits == stack[|stack| - 1]
    {
      if |stack| == 0 then Panic("called `Option::unwrap()` on a `None` value")
      else Ok(CallKey(stack[|stack| - 1]))
    }
  }

  /** `enter` followed by `exit` leaves the stack as it was. */
  method EnterExitRestores(s: CallKeyStack, location: Location, index: nat)
    modifies s
    ensures s.stack == old(s.stack)
  {
    var _ := s.Enter(location, index);
    s.Exit();
  }
}
