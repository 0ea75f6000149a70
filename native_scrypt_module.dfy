/**
 * The Android side of the module (`NativeScryptModule.scrypt`): the parameter gate,
 * base64 decoding of the inputs, the hand-off to a background thread, the hex
 * encoding of the derived key and the routing of each ending to `resolve` or
 * `reject`. A JVM `Error` thrown inside the thread is not caught, and the
 * promise is then never settled.
 *
 * The foreign calls are parameters: `decode` stands for
 * `android.util.Base64.decode(_, Base64.DEFAULT)` (None when it throws
 * `IllegalArgumentException`) and `generate` for BouncyCastle's
 * `SCrypt.generate`, whose code is not part of this model.
 */
module NativeScryptModule {
  import opened Wrappers
  import opened KotlinTypes
  import opened HexFormat

  const InvalidParamsCode: string := "SCRYPT_INVALID_PARAMS"
  const ErrorCode: string := "SCRYPT_ERROR"
  const InvalidBase64Message: string := "Invalid base64 input"

  function Pow2(k: nat): (m: nat)
    ensures m >= 1
  {
    if k == 0 then 1 else 2 * Pow2(k - 1)
  }

  /** The cost factor rule of section 6 of RFC 7914 without its upper bound: `n` is `2^k` for some `k >= 1`. */
  ghost predicate ValidCostFactor(n: int)
  {
    exists k: nat :: 1 <= k && Pow2(k) == n
  }

  // ---------------------------------------------------------------------------
  // isPowerOfTwo

  /** `isPowerOfTwo(n)`: `n and (n - 1) == 0` on 32-bit `Int`, with `n - 1` wrapping around. */
  function IsPowerOfTwo(n: Int32): bool
  {
    And(n, Minus1(n)) == 0
  }

  /** `2m` is a power of two exactly when `m` is. */
  lemma Pow2Doubling(m: nat)
    requires m >= 1
    ensures (exists j: nat :: Pow2(j) == 2 * m) <==> exists k: nat :: Pow2(k) == m
  {
    if exists k: nat :: Pow2(k) == m {
      var k: nat :| Pow2(k) == m;
      var j: nat := k + 1;
      assert Pow2(j) == 2 * m;
    }
    if exists j: nat :: Pow2(j) == 2 * m {
      var j: nat :| Pow2(j) == 2 * m;
      assert j != 0;
      var k: nat := j - 1;
      assert Pow2(k) == m;
    }
  }

  /** For a positive number, `u and (u - 1)` clears exactly the lowest set bit, so it is 0 iff `u` is a power of two. */
  lemma {:induction false} AndPredecessor(u: nat)
    requires u >= 1
    ensures BitAnd(u, u - 1) == 0 <==> exists k: nat :: Pow2(k) == u
    decreases u
  {
    if u == 1 {
      assert Pow2(0) == 1;
    } else if u % 2 == 0 {
      var m := u / 2;
      assert u == 2 * m && u - 1 == 2 * (m - 1) + 1;
      assert (u - 1) / 2 == m - 1 && (u - 1) % 2 == 1;
      assert BitAnd(u, u - 1) == 2 * BitAnd(m, m - 1);
      AndPredecessor(m);
      Pow2Doubling(m);
    } else {
      var m := u / 2;
      assert u == 2 * m + 1 && u - 1 == 2 * m;
      assert (u - 1) / 2 == m && (u - 1) % 2 == 0;
      assert BitAnd(u, u - 1) == 2 * BitAnd(m, m);
      BitAndSelf(m);
    }
  }

  /** On the values the gate passes to it (`n > 1`), the bit trick recognises exactly the powers two `2^k`, `k >= 1`. */
  lemma IsPowerOfTwoCorrect(n: Int32)
    requires n > 1
    ensures IsPowerOfTwo(n) <==> ValidCostFactor(n)
  {
    assert IsPowerOfTwo(n) == (BitAnd(n, n - 1) == 0);
    AndPredecessor(n);
    if exists k: nat :: Pow2(k) == n {
      var k: nat :| Pow2(k) == n;
      assert Pow2(0) == 1 < n;
      assert 1 <= k && Pow2(k) == n;
    }
    if ValidCostFactor(n) {
      var k: nat :| 1 <= k && Pow2(k) == n;
      assert exists j: nat :: Pow2(j) == n;
    }
  }

  lemma {:induction false} Pow2Grows(j: nat, k: nat)
    requires j < k
    ensures 2 * Pow2(j) <= Pow2(k)
    decreases k
  {
    if j + 1 < k {
      Pow2Grows(j, k - 1);
    }
  }

  lemma Pow2Of31And32()
    ensures Pow2(31) == 0x8000_0000 && Pow2(32) == 0x1_0000_0000
  {
    assert Pow2(8) == 256;
    assert Pow2(16) == 0x1_0000;
    assert Pow2(24) == 0x100_0000;
  }

  /** No power of two lies strictly between `2^31` and `2^32`. */
  lemma NoPowerOfTwoAbove31(u: nat)
    requires 0x8000_0000 < u < 0x1_0000_0000
    ensures !exists k: nat :: Pow2(k) == u
  {
    Pow2Of31And32();
    if exists k: nat :: Pow2(k) == u {
      var k: nat :| Pow2(k) == u;
      if k < 31 {
        Pow2Grows(k, 31);
      } else if k > 32 {
        Pow2Grows(32, k);
      }
      assert false;
    }
  }

  /** A negative `Int` other than `Int.MIN_VALUE` fails the bit trick. */
  lemma IsPowerOfTwoOnNegatives(n: Int32)
    requires IntMin < n < 0
    ensures !IsPowerOfTwo(n)
  {
    var u := Bits(n);
    assert Bits(Minus1(n)) == u - 1;
    AndPredecessor(u);
    NoPowerOfTwoAbove31(u);
  }

  /**
   * Over the whole `Int` range the bit trick also accepts 0, 1 and `Int.MIN_VALUE`
   * (bit pattern `2^31`); the `NInt <= 1` half of the gate is what rejects them.
   */
  lemma IsPowerOfTwoOnAllInts(n: Int32)
    ensures IsPowerOfTwo(n) <==> n == 0 || n == IntMin || exists k: nat :: Pow2(k) == n
  {
    if n == IntMin {
      Pow2Of31And32();
      assert Bits(n) == Pow2(31) && Bits(Minus1(n)) == Pow2(31) - 1;
      AndPredecessor(Bits(n));
    } else if n > 0 {
      AndPredecessor(n);
    } else if n < 0 {
      IsPowerOfTwoOnNegatives(n);
    }
  }

  // ---------------------------------------------------------------------------
  // The parameter gate

  /** The condition the gate rejects first, each with the message of its `IllegalArgumentException`. */
  datatype ParamError = BadN | BadR | BadP | BadDkLen
  {
    function Message(): string
    {
      match this
      case BadN => "N must be > 1 and a power of 2"
      case BadR => "r must be >= 1"
      case BadP => "p must be >= 1"
      case BadDkLen => "dkLen must be >= 1"
    }
  }

  /** The validation block: the first violated condition in the order N, r, p, dkLen, or None when all hold. */
  function Validate(n: Int32, r: Int32, p: Int32, dkLen: Int32): Option<ParamError>
  {
    if n <= 1 || !IsPowerOfTwo(n) then Some(BadN)
    else if r < 1 then Some(BadR)
    else if p < 1 then Some(BadP)
    else if dkLen < 1 then Some(BadDkLen)
    else None
  }

  /** The gate admits exactly the parameters with N > 1 a power of two and r, p, dkLen at least 1. */
  lemma ValidateAccepts(n: Int32, r: Int32, p: Int32, dkLen: Int32)
    ensures Validate(n, r, p, dkLen) == None <==> ValidCostFactor(n) && r >= 1 && p >= 1 && dkLen >= 1
  {
    if n > 1 {
      IsPowerOfTwoCorrect(n);
    }
  }

  /** Each rejection names the first condition, in the order N, r, p, dkLen, that the parameters violate. */
  lemma ValidateReportsFirstFailure(n: Int32, r: Int32, p: Int32, dkLen: Int32)
    ensures Validate(n, r, p, dkLen) == Some(BadN) <==> !ValidCostFactor(n)
    ensures Validate(n, r, p, dkLen) == Some(BadR) <==> ValidCostFactor(n) && r < 1
    ensures Validate(n, r, p, dkLen) == Some(BadP) <==> ValidCostFactor(n) && r >= 1 && p < 1
    ensures Validate(n, r, p, dkLen) == Some(BadDkLen) <==> ValidCostFactor(n) && r >= 1 && p >= 1 && dkLen < 1
  {
    ValidateAccepts(n, r, p, dkLen);
    ValidateAccepts(n, 1, 1, 1);
  }

  /** N = 3 with r = 0 is reported as a bad N, not a bad r. */
  lemma ValidateExample()
    ensures Validate(3, 0, 1, 1) == Some(BadN)
    ensures Validate(16, 0, 0, 0) == Some(BadR)
  {
    assert BitAnd(3, 2) == 2 by {
      assert BitAnd(1, 1) == 1;
    }
    assert BitAnd(16, 15) == 0 by {
      assert BitAnd(1, 0) == 0;
      assert BitAnd(2, 1) == 0;
      assert BitAnd(4, 3) == 0;
      assert BitAnd(8, 7) == 0;
    }
  }

  /**
   * The gate as the `Double` arguments reach it, through `toInt()`: saturation cannot
   * smuggle a huge N past it, because `Int.MAX_VALUE` is odd.
   */
  lemma ValidateAfterConversion(n: int, r: int, p: int, dkLen: int)
    ensures Validate(ToInt(n), ToInt(r), ToInt(p), ToInt(dkLen)) == None
        <==> ValidCostFactor(n) && n <= IntMax && r >= 1 && p >= 1 && dkLen >= 1
  {
    ValidateAccepts(ToInt(n), ToInt(r), ToInt(p), ToInt(dkLen));
    ToIntKeepsRangeAndSign(n);
    ToIntKeepsRangeAndSign(r);
    ToIntKeepsRangeAndSign(p);
    ToIntKeepsRangeAndSign(dkLen);
    if n > IntMax && ValidCostFactor(ToInt(n)) {
      var k: nat :| 1 <= k && Pow2(k) == IntMax;
      assert Pow2(k) == 2 * Pow2(k - 1);
      assert false;
    }
  }

  // ---------------------------------------------------------------------------
  // The whole call, as a value

  /** The work captured by the background thread: the decoded inputs and the converted parameters. */
  datatype Job = Job(passwd: seq<Byte>, salt: seq<Byte>, n: Int32, r: Int32, p: Int32, dkLen: Int32)

  /** How the main-thread part of `scrypt` ends: an exception for the outer handler, or a started thread. */
  datatype MainThreadResult = Threw(message: string) | Started(job: Job)

  /**
   * The ending of `SCrypt.generate`: the derived key, an `Exception` with its message,
   * or a JVM `Error` (an `OutOfMemoryError`, say), which `catch (e: Exception)` does not catch.
   */
  datatype Generated = Derived(key: seq<Byte>) | ThrewException(message: string) | ThrewError(message: string)

  /** The state of the bridge promise; a promise settles at most once. */
  datatype PromiseState = Pending | Resolved(value: string) | Rejected(code: string, message: string)

  /** The library's documented promise: the derived key has exactly dkLen bytes. An assumption, not proved. */
  ghost predicate HonoursKeyLength(generate: Job -> Generated)
  {
    forall job :: generate(job).Derived? ==> |generate(job).key| == job.dkLen
  }

  /** The main-thread body of `scrypt`, up to `Thread { ... }.start()`. */
  function MainThread(passwd: string, salt: string, n: int, r: int, p: int, dkLen: int,
                      decode: string -> Option<seq<Byte>>): MainThreadResult
  {
    var nInt, rInt, pInt, dkLenInt := ToInt(n), ToInt(r), ToInt(p), ToInt(dkLen);
    match Validate(nInt, rInt, pInt, dkLenInt)
    case Some(e) => Threw(e.Message())
    case None =>
      var passwdBytes := decode(passwd);
      if passwdBytes.None? then Threw(InvalidBase64Message)
      else
        var saltBytes := decode(salt);
        if saltBytes.None? then Threw(InvalidBase64Message)
        else Started(Job(passwdBytes.value, saltBytes.value, nInt, rInt, pInt, dkLenInt))
  }

  /** The body of the background thread: the promise state it leaves behind (Pending when the thread dies). */
  function Background(job: Job, generate: Job -> Generated): PromiseState
  {
    match generate(job)
    case Derived(key) => Resolved(ToHex(key))
    case ThrewException(m) => Rejected(ErrorCode, m)
    case ThrewError(_) => Pending
  }

  /** The terminal state of the promise after one whole call of `scrypt`. */
  function Invoke(passwd: string, salt: string, n: int, r: int, p: int, dkLen: int,
                  decode: string -> Option<seq<Byte>>, generate: Job -> Generated): PromiseState
  {
    match MainThread(passwd, salt, n, r, p, dkLen, decode)
    case Threw(m) => Rejected(InvalidParamsCode, m)
    case Started(job) => Background(job, generate)
  }

  /** A promise already settled ignores a later `resolve` or `reject`. */
  function Settle(current: PromiseState, next: PromiseState): PromiseState
  {
    if current.Pending? then next else current
  }

  /**
   * Parameters the gate refuses are rejected with `SCRYPT_INVALID_PARAMS` and the first
   * failure's message; no decoding happens and no thread starts: the ending is the same
   * whatever `decode` and `generate` are.
   */
  lemma InvalidParamsRejectBeforeDecoding(passwd: string, salt: string, n: int, r: int, p: int, dkLen: int,
                                          decode: string -> Option<seq<Byte>>, generate: Job -> Generated,
                                          otherDecode: string -> Option<seq<Byte>>, otherGenerate: Job -> Generated)
    requires Validate(ToInt(n), ToInt(r), ToInt(p), ToInt(dkLen)).Some?
    ensures MainThread(passwd, salt, n, r, p, dkLen, decode) == MainThread(passwd, salt, n, r, p, dkLen, otherDecode)
    ensures MainThread(passwd, salt, n, r, p, dkLen, decode).Threw?
    ensures Invoke(passwd, salt, n, r, p, dkLen, decode, generate)
         == Rejected(InvalidParamsCode, Validate(ToInt(n), ToInt(r), ToInt(p), ToInt(dkLen)).value.Message())
    ensures Invoke(passwd, salt, n, r, p, dkLen, decode, generate)
         == Invoke(passwd, salt, n, r, p, dkLen, otherDecode, otherGenerate)
  {
  }

  /** A password or salt that is not valid base64 is rejected like a parameter error, before any thread starts. */
  lemma InvalidBase64Rejects(passwd: string, salt: string, n: int, r: int, p: int, dkLen: int,
                             decode: string -> Option<seq<Byte>>, generate: Job -> Generated)
    requires Validate(ToInt(n), ToInt(r), ToInt(p), ToInt(dkLen)) == None
    requires decode(passwd).None? || decode(salt).None?
    ensures MainThread(passwd, salt, n, r, p, dkLen, decode) == Threw(InvalidBase64Message)
    ensures Invoke(passwd, salt, n, r, p, dkLen, decode, generate) == Rejected(InvalidParamsCode, InvalidBase64Message)
  {
  }

  /** Once the gate and decoding pass, the thread starts with the decoded bytes and the converted parameters. */
  lemma StartsWithDecodedInputs(passwd: string, salt: string, n: int, r: int, p: int, dkLen: int,
                                decode: string -> Option<seq<Byte>>)
    requires Validate(ToInt(n), ToInt(r), ToInt(p), ToInt(dkLen)) == None
    requires decode(passwd).Some? && decode(salt).Some?
    ensures MainThread(passwd, salt, n, r, p, dkLen, decode)
         == Started(Job(decode(passwd).value, decode(salt).value, ToInt(n), ToInt(r), ToInt(p), ToInt(dkLen)))
  {
  }

  /**
   * The routing of endings to rejection codes: `SCRYPT_INVALID_PARAMS` exactly when the
   * main thread threw, `SCRYPT_ERROR` exactly when the derivation threw an `Exception`,
   * resolution exactly when it returned a key, and no ending at all when it threw an `Error`.
   */
  lemma OutcomeRouting(passwd: string, salt: string, n: int, r: int, p: int, dkLen: int,
                       decode: string -> Option<seq<Byte>>, generate: Job -> Generated)
    ensures var res := Invoke(passwd, salt, n, r, p, dkLen, decode, generate);
            var main := MainThread(passwd, salt, n, r, p, dkLen, decode);
            && (res.Rejected? && res.code == InvalidParamsCode <==> main.Threw?)
            && (res.Rejected? && res.code == ErrorCode <==> main.Started? && generate(main.job).ThrewException?)
            && (res.Resolved? <==> main.Started? && generate(main.job).Derived?)
            && (res.Pending? <==> main.Started? && generate(main.job).ThrewError?)
            && (res.Rejected? ==> res.code == InvalidParamsCode || res.code == ErrorCode)
  {
  }

  /**
   * On success the promise resolves with the lowercase hex of the derived key: two
   * characters per byte, i.e. `2 * dkLen` characters, and decoding it gives the key back.
   */
  lemma ResolvedValueIsHexOfKey(passwd: string, salt: string, n: int, r: int, p: int, dkLen: int,
                                decode: string -> Option<seq<Byte>>, generate: Job -> Generated)
    requires HonoursKeyLength(generate)
    requires Invoke(passwd, salt, n, r, p, dkLen, decode, generate).Resolved?
    ensures var hex := Invoke(passwd, salt, n, r, p, dkLen, decode, generate).value;
            var job := MainThread(passwd, salt, n, r, p, dkLen, decode).job;
            && Validate(ToInt(n), ToInt(r), ToInt(p), ToInt(dkLen)) == None
            && generate(job).Derived?
            && hex == ToHex(generate(job).key)
            && |hex| == 2 * ToInt(dkLen)
            && IsLowerHex(hex)
            && FromHex(hex) == Some(generate(job).key)
  {
    var job := MainThread(passwd, salt, n, r, p, dkLen, decode).job;
    var key := generate(job).key;
    ToHexIsLowerHex(key);
    FromHexOfToHex(key);
  }

  // ---------------------------------------------------------------------------
  // The imperative call

  /** The React Native promise handed to `scrypt`; its first `resolve` or `reject` decides it. */
  class Promise {
    var state: PromiseState

    constructor ()
      ensures state == Pending
    {
      state := Pending;
    }

    method Resolve(value: string)
      modifies this
      ensures state == Settle(old(state), Resolved(value))
    {
      if state.Pending? {
        state := Resolved(value);
      }
    }

    method Reject(code: string, message: string)
      modifies this
      ensures state == Settle(old(state), Rejected(code, message))
    {
      if state.Pending? {
        state := Rejected(code, message);
      }
    }
  }

  /**
   * `scrypt` on the calling thread. The started thread is returned as the job it captured
   * (None when none starts); running it is `RunThread`. Every exception on this thread is
   * routed to `reject("SCRYPT_INVALID_PARAMS", message)`.
   */
  method Scrypt<C>(passwd: string, salt: string, n: int, r: int, p: int, dkLen: int, onProgress: Option<C>,
                   promise: Promise, decode: string -> Option<seq<Byte>>) returns (thread: Option<Job>)
    modifies promise
    ensures match MainThread(passwd, salt, n, r, p, dkLen, decode)
            case Threw(m) => thread == None && promise.state == Settle(old(promise.state), Rejected(InvalidParamsCode, m))
            case Started(job) => thread == Some(job) && promise.state == old(promise.state)
  {
    var nInt, rInt, pInt, dkLenInt := ToInt(n), ToInt(r), ToInt(p), ToInt(dkLen);
    var failure: Option<string> := None;
    if nInt <= 1 || !IsPowerOfTwo(nInt) {
      failure := Some(BadN.Message());
    } else if rInt < 1 {
      failure := Some(BadR.Message());
    } else if pInt < 1 {
      failure := Some(BadP.Message());
    } else if dkLenInt < 1 {
      failure := Some(BadDkLen.Message());
    }
    if failure.None? {
      var passwdBytes := decode(passwd);
      var saltBytes := if passwdBytes.Some? then decode(salt) else None;
      if passwdBytes.Some? && saltBytes.Some? {
        thread := Some(Job(passwdBytes.value, saltBytes.value, nInt, rInt, pInt, dkLenInt));
        return;
      }
      failure := Some(InvalidBase64Message);
    }
    promise.Reject(InvalidParamsCode, failure.value);
    thread := None;
  }

  /** The body of the background thread: derive, hex-encode, resolve; an `Exception` rejects with `SCRYPT_ERROR`. */
  method RunThread(job: Job, generate: Job -> Generated, promise: Promise)
    modifies promise
    ensures promise.state == Settle(old(promise.state), Background(job, generate))
  {
    var result := generate(job);
    match result
    case Derived(derivedKey) =>
      var hexResult := ToHex(derivedKey);
      promise.Resolve(hexResult);
    case ThrewException(m) =>
      promise.Reject(ErrorCode, m);
    case ThrewError(_) =>
  }

  /** One call as the runtime makes it: a fresh promise, `scrypt`, then the thread it started, if any. */
  method Call<C>(passwd: string, salt: string, n: int, r: int, p: int, dkLen: int, onProgress: Option<C>,
                 decode: string -> Option<seq<Byte>>, generate: Job -> Generated) returns (promise: Promise)
    ensures fresh(promise)
    ensures promise.state == Invoke(passwd, salt, n, r, p, dkLen, decode, generate)
  {
    promise := new Promise();
    var thread := Scrypt(passwd, salt, n, r, p, dkLen, onProgress, promise, decode);
    if thread.Some? {
      RunThread(thread.value, generate, promise);
    }
  }
}
