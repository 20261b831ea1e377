/**
 * `GenerateDiscountsHandler` and `DiscountCodeGeneratorService`. Randomness is a parameter:
 * each call of `Random.Next(36)` is a `Draw`, each fresh GUID is its 36-character text.
 * The parallel batches of `GenerateAsync` run one after the other here.
 */
module DiscountGeneration {
  import opened Wrappers
  import opened Packets
  import opened Persistence

  const Characters: string := "ABCDEFGHIJKLMNOPQRSTUVWXYZ0123456789"
  const BatchSize: int := 1000

  /** A value `Random.Next(Characters.Length)` can return. */
  newtype Draw = x: int | 0 <= x < 36

  function Min(a: int, b: int): int {
    if a <= b then a else b
  }

  function Sum(s: seq<nat>): nat {
    if s == [] then 0 else s[0] + Sum(s[1..])
  }

  /** The chunk sizes `Partition(total, size)` yields, in order. */
  function Chunks(total: int, size: int): seq<nat>
    requires size > 0
    decreases total
  {
    if total <= 0 then [] else [Min(size, total)] + Chunks(total - size, size)
  }

  /** The chunks add up to the total (nothing for a total of zero or less). */
  lemma {:induction false} ChunksSum(total: int, size: int)
    requires size > 0
    ensures Sum(Chunks(total, size)) == if total <= 0 then 0 else total
    decreases total
  {
    if total > 0 {
      ChunksSum(total - size, size);
      assert Chunks(total, size)[1..] == Chunks(total - size, size);
    }
  }

  /** Every chunk lies in `1..size`, and all but the last are exactly `size`. */
  lemma {:induction false} ChunksShape(total: int, size: int)
    requires size > 0
    ensures var c := Chunks(total, size);
      && (forall i :: 0 <= i < |c| ==> 1 <= c[i] <= size)
      && (forall i :: 0 <= i < |c| - 1 ==> c[i] == size)
    decreases total
  {
    if total > 0 {
      ChunksShape(total - size, size);
      var c := Chunks(total, size);
      assert forall i :: 1 <= i < |c| ==> c[i] == Chunks(total - size, size)[i - 1];
      assert |c| > 1 ==> total > size;
    }
  }

  /** There are `ceil(total / size)` chunks: none for a total of zero, otherwise `n` with `(n - 1) * size < total <= n * size`. */
  lemma {:induction false} ChunksCount(total: nat, size: int)
    requires size > 0
    ensures var n := |Chunks(total, size)|;
      && (n == 0 <==> total == 0)
      && (total > 0 ==> (n - 1) * size < total <= n * size)
    decreases total
  {
    if total > size {
      ChunksCount(total - size, size);
      var m := |Chunks(total - size, size)|;
      assert |Chunks(total, size)| == m + 1;
      assert (m + 1) * size == m * size + size && (m + 1 - 1) * size == (m - 1) * size + size;
    }
  }

  /** `Partition(total, size)`: the running index steps by `size` and each chunk is the smaller of `size` and what is left. */
  method Partition(total: int, size: int) returns (chunks: seq<nat>)
    requires size > 0
    ensures chunks == Chunks(total, size)
  {
    chunks := [];
    var i := 0;
    while i < total
      invariant 0 <= i
      invariant chunks + Chunks(total - i, size) == Chunks(total, size)
      decreases total - i
    {
      chunks := chunks + [Min(size, total - i)];
      i := i + size;
    }
  }

  /** A code `GenerateRandomCode` can return: `length` characters of the alphabet. */
  predicate Drawn(code: string, length: nat) {
    |code| == length && forall i :: 0 <= i < |code| ==> code[i] in Characters
  }

  /** A drawn code of length 7 or 8 satisfies the table's code constraints. */
  lemma DrawnCodeIsValid(code: string, length: nat)
    requires Drawn(code, length) && 7 <= length <= 8
    ensures ValidCode(code)
  {
    assert forall k :: 0 <= k < |Characters| ==> IsAlphanumeric(Characters[k]);
  }

  /** `GenerateRandomCode`: fills a `length`-character array with the drawn characters. */
  method GenerateRandomCode(length: nat, draws: seq<Draw>) returns (code: string)
    requires |draws| >= length
    ensures |code| == length && forall i :: 0 <= i < length ==> code[i] == Characters[draws[i]]
    ensures Drawn(code, length)
  {
    var a := new char[length];
    for i := 0 to length
      invariant forall j :: 0 <= j < i ==> a[j] == Characters[draws[j]]
    {
      a[i] := Characters[draws[i]];
    }
    code := a[..];
  }

  class DiscountCodeGeneratorService {
    /** The keys of `_discountCodes`. */
    var codes: set<string>

    constructor ()
      ensures codes == {}
    {
      codes := {};
    }

    /** `StoreDiscountCode`: `TryAdd` succeeds exactly when the code is new; the set then holds it. */
    method StoreDiscountCode(code: string) returns (added: bool)
      modifies this
      ensures added <==> code !in old(codes)
      ensures codes == old(codes) + {code}
    {
      added := code !in codes;
      codes := codes + {code};
    }

    /** `GenerateDiscountCode`: a drawn code already present gives false and an empty string; otherwise it is added and returned. */
    method GenerateDiscountCode(length: nat, draws: seq<Draw>) returns (ok: bool, code: string)
      requires |draws| >= length
      modifies this
      ensures !ok ==> code == "" && codes == old(codes)
      ensures ok ==> Drawn(code, length) && code !in old(codes) && codes == old(codes) + {code}
      ensures ok <==> (var drawn := seq(length, i requires 0 <= i < length => Characters[draws[i]]); drawn !in old(codes))
    {
      var provisional := GenerateRandomCode(length, draws);
      assert provisional == seq(length, i requires 0 <= i < length => Characters[draws[i]]);
      if provisional in codes {
        return false, "";
      }
      codes := codes + {provisional};
      return true, provisional;
    }

    /**
     * `GenerateBatch`: draws codes until `count` of them were new. The draws come from a
     * finite supply of attempts; `finished` is false when the supply ran out first.
     */
    method GenerateBatch(count: int, length: nat, attempts: seq<seq<Draw>>) returns (finished: bool, used: nat)
      requires forall k :: 0 <= k < |attempts| ==> |attempts[k]| >= length
      modifies this
      ensures old(codes) <= codes && used <= |attempts|
      ensures forall c :: c in codes && c !in old(codes) ==> Drawn(c, length)
      ensures finished ==> |codes| == |old(codes)| + (if count <= 0 then 0 else count)
      ensures !finished ==> used == |attempts| && |codes| < |old(codes)| + count
    {
      var i, k := 0, 0;
      while i < count
        invariant 0 <= k <= |attempts| && 0 <= i <= (if count <= 0 then 0 else count)
        invariant old(codes) <= codes && |codes| == |old(codes)| + i
        invariant forall c :: c in codes && c !in old(codes) ==> Drawn(c, length)
      {
        var stored := false;
        while !stored
          invariant 0 <= k <= |attempts|
          invariant old(codes) <= codes && |codes| == |old(codes)| + i + (if stored then 1 else 0)
          invariant forall c :: c in codes && c !in old(codes) ==> Drawn(c, length)
          decreases |attempts| - k, !stored
        {
          if k == |attempts| {
            return false, k;
          }
          var code := GenerateRandomCode(length, attempts[k]);
          k := k + 1;
          ghost var before := codes;
          stored := StoreDiscountCode(code);
          if !stored {
            assert codes == before;
          }
        }
        i := i + 1;
      }
      return true, k;
    }

    /** `GenerateAsync`: one `GenerateBatch` per chunk of `Partition(count, BatchSize)`; true once all are done. */
    method GenerateAsync(count: u16, length: byte, attempts: seq<seq<Draw>>) returns (result: Option<bool>)
      requires forall k :: 0 <= k < |attempts| ==> |attempts[k]| >= length as int
      modifies this
      ensures old(codes) <= codes
      ensures forall c :: c in codes && c !in old(codes) ==> Drawn(c, length as nat)
      ensures result.Some? ==> result.value && |codes| == |old(codes)| + count as int
      ensures result.None? ==> |codes| < |old(codes)| + count as int
    {
      var batches := Partition(count as int, BatchSize);
      ChunksSum(count as int, BatchSize);
      ChunksShape(count as int, BatchSize);
      var k := 0;
      for b := 0 to |batches|
        invariant 0 <= k <= |attempts|
        invariant old(codes) <= codes && |codes| + Sum(batches[b..]) == |old(codes)| + count as int
        invariant forall c :: c in codes && c !in old(codes) ==> Drawn(c, length as nat)
      {
        assert batches[b..][1..] == batches[b + 1..];
        var finished, used := GenerateBatch(batches[b], length as nat, attempts[k..]);
        if !finished {
          return None;
        }
        k := k + used;
      }
      assert batches[|batches|..] == [];
      return Some(true);
    }
  }

  /** `Guid.ToString()`: 32 lower-case hex digits in groups of 8-4-4-4-12 joined by dashes. */
  predicate GuidText(g: string) {
    |g| == 36 && forall i :: 0 <= i < |g| ==>
      if i == 8 || i == 13 || i == 18 || i == 23 then g[i] == '-' else ('0' <= g[i] <= '9' || 'a' <= g[i] <= 'f')
  }

  datatype GenerateError = ArgumentOutOfRange

  /**
   * `GenerateDiscountsHandler.ExecuteAsync`: cuts the first `Length` characters of one fresh
   * GUID per requested code; the cut throws when `Length` exceeds the GUID's 36 characters.
   * It has no access to the store or the connection: nothing is stored and nothing sent.
   */
  method ExecuteGenerate(count: u16, length: byte, guids: seq<string>) returns (r: Result<seq<string>, GenerateError>)
    requires |guids| >= count as int && forall k :: 0 <= k < |guids| ==> GuidText(guids[k])
    ensures r.Failure? <==> count > 0 && length as int > 36
    ensures r.Success? ==>
      && |r.value| == count as int
      && forall i :: 0 <= i < |r.value| ==> length as int <= |guids[i]| && r.value[i] == guids[i][..length]
  {
    var codes := [];
    for i := 0 to count as int
      invariant |codes| == i && forall j :: 0 <= j < i ==> length as int <= 36 && codes[j] == guids[j][..length]
    {
      if length as int > 36 {
        return Failure(ArgumentOutOfRange);
      }
      codes := codes + [guids[i][..length]];
    }
    assert count > 0 ==> length as int <= 36 by {
      if count > 0 { assert codes[0] == guids[0][..length]; }
    }
    return Success(codes);
  }

  /** A GUID prefix of 7 or 8 characters is all hex digits, so it would satisfy the table's code constraints. */
  lemma GuidPrefixIsValid(g: string, length: nat)
    requires GuidText(g) && 7 <= length <= 8
    ensures ValidCode(g[..length])
  {
    forall i | 0 <= i < length ensures IsAlphanumeric(g[..length][i]) {
      assert g[..length][i] == g[i];
    }
  }
}
