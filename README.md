# react-native-turbo-scrypt: a Dafny model of the bridge glue

The repository exposes scrypt key derivation to React Native apps. It does not
implement scrypt itself: the Android module hands the derivation to BouncyCastle's
`SCrypt.generate`. What it does own is the glue on both sides of the React Native
boundary, and that glue is what this project models and proves things about:

- On the JavaScript side (`specs/NativeScrypt.ts`), `bytesToBase64` turns each
  `BytesLike` value into a binary string with one character per byte and passes it
  to `btoa`. `scrypt` looks up the native module, converts both inputs, forwards the
  callback as `progress || null`, and prefixes the native hex result with `0x`.
- On the Android side (`NativeScryptModule.kt`), `scrypt` converts the `Double`
  parameters with `toInt()`. It checks them in the order N, r, p, dkLen, with
  `isPowerOfTwo` as the bit trick `n and (n - 1) == 0`. Then it base64-decodes the inputs
  and starts a thread that derives the key and hex-encodes it with `"%02x"`. A
  parameter or decoding failure, a derived key and an `Exception` from the derivation
  each end in one `promise.resolve` or `promise.reject`. A JVM `Error` thrown inside
  the thread reaches neither.

Modules:

- `Wrappers`: `Option`.
- `KotlinTypes`: the JVM types the code uses, with their widths written out:
  - 32-bit `Int`, and `toInt()` saturation for integral `Double` values;
  - wrap-around `n - 1`;
  - the two's complement bit pattern, and bitwise `and`;
  - signed `Byte` and its unsigned reading.
- `HexFormat`: the `joinToString("") { "%02x".format(it) }` encoder. This is lowercase base16 as in section 8 of RFC 4648. The module also has a pairwise decoder, proved to be its inverse.
- `NativeScryptModule`: the Kotlin module.
  - The gate, the main-thread body and the thread body are functions.
  - The promise is a class with settle-once semantics.
  - `Scrypt` and `RunThread` are methods that change that promise step by step.
  - `Call` puts the two methods together.
- `NativeScryptJs`: the TypeScript module. `BytesToBase64` is a method with the byte loop. `Scrypt` is a function of the state the returned promise ends in.
- `Bridge`: the two sides composed. A JavaScript call runs the Kotlin model. A Kotlin rejection reaches JavaScript as an error carrying the code.

Foreign code is represented by function parameters. They are `btoa`,
`Base64.decode(_, Base64.DEFAULT)` (None when it throws) and `SCrypt.generate`.
`generate`'s ending is a key, an `Exception`, or a JVM `Error`. The library's
documented property, that the key has exactly dkLen bytes, is the explicit assumption
`NativeScryptModule.HonoursKeyLength`, and it is not proved.

Points where the code's behaviour is worth noting:

- Base64 decoding failures get the same code, `SCRYPT_INVALID_PARAMS`, as parameter errors. There is no separate encoding error code. Every `Exception` thrown inside the thread is rejected with `SCRYPT_ERROR`.
- The thread catches only `Exception` (NativeScryptModule.kt:88). An `Error` thrown by the derivation, such as an `OutOfMemoryError` from allocating the memory array, is not caught, and no settle call is made. The throwable goes to the thread's default uncaught-exception handler, which on Android ends the app process. In the model this ending is `Generated.ThrewError`, and the promise state `Pending` then means "never settled" (`OutcomeRouting`), so such a failure is never reported to the caller.
- The gate checks N > 1 and the power of two but not RFC 7914's upper bound on N. BouncyCastle's own checks on that bound surface as `SCRYPT_ERROR`.
- `onProgress` is accepted and never called, so no progress values are reported.

## Model

| member | source | states |
|---|---|---|
| `KotlinTypes.ToIntKeepsRangeAndSign` | android/app/src/main/java/com/turboscrypt/NativeScryptModule.kt:31-34 | `toInt()` of an integral value keeps every `Int` value, maps values above `Int.MAX_VALUE` to it and values below `Int.MIN_VALUE` to `Int.MIN_VALUE`, and keeps which side of 1 a value is on |
| `KotlinTypes.Minus1` | android/app/src/main/java/com/turboscrypt/NativeScryptModule.kt:102 | `n - 1` on `Int` is the mathematical `n - 1` modulo 2^32 |
| `KotlinTypes.BitAndSelf` | android/app/src/main/java/com/turboscrypt/NativeScryptModule.kt:102 | `a and a == a` |
| `KotlinTypes.UnsignedByte` | android/app/src/main/java/com/turboscrypt/NativeScryptModule.kt:74 | the value `%02x` prints for a byte is the byte modulo 256, in 0..255 |
| `HexFormat.ByteToHex` | android/app/src/main/java/com/turboscrypt/NativeScryptModule.kt:74 | one byte formats to exactly two characters |
| `HexFormat.ToHex` | android/app/src/main/java/com/turboscrypt/NativeScryptModule.kt:73-75 | the joined hex string has length exactly `2 * |derivedKey|` |
| `HexFormat.ToHexDigits` | android/app/src/main/java/com/turboscrypt/NativeScryptModule.kt:73-75 | characters `2i` and `2i+1` are the high and low lowercase digits of byte `i` read as unsigned |
| `HexFormat.ToHexIsLowerHex` | android/app/src/main/java/com/turboscrypt/NativeScryptModule.kt:73-75 | every character of the hex string is in `0-9a-f` |
| `HexFormat.DigitValue` | android/app/src/main/java/com/turboscrypt/NativeScryptModule.kt:74 | a character has a digit value exactly when it is in the lowercase alphabet, and the value is its position there |
| `HexFormat.DigitValueOfAlphabet` | android/app/src/main/java/com/turboscrypt/NativeScryptModule.kt:74 | each of the 16 digits `%x` can print decodes to its own value |
| `HexFormat.FromHexOfToHex` | android/app/src/main/java/com/turboscrypt/NativeScryptModule.kt:73-75 | decoding the hex string pairwise recovers the original byte sequence |
| `HexFormat.ToHexOfFromHex` | android/app/src/main/java/com/turboscrypt/NativeScryptModule.kt:73-75 | any string the decoder accepts is exactly the hex encoding of what it decodes to |
| `HexFormat.HexIff` | android/app/src/main/java/com/turboscrypt/NativeScryptModule.kt:73-75 | `s` decodes to `bytes` if and only if `bytes` hex-encodes to `s` |
| `NativeScryptModule.AndPredecessor` | android/app/src/main/java/com/turboscrypt/NativeScryptModule.kt:101-103 | for every positive `u`, `u and (u - 1) == 0` iff `u` is `2^k` for some `k >= 0` |
| `NativeScryptModule.IsPowerOfTwoCorrect` | android/app/src/main/java/com/turboscrypt/NativeScryptModule.kt:101-103 | for every `n > 1`, `isPowerOfTwo(n)` holds iff `n = 2^k` for some `k >= 1` |
| `NativeScryptModule.IsPowerOfTwoOnNegatives` | android/app/src/main/java/com/turboscrypt/NativeScryptModule.kt:101-103 | every negative `Int` other than `Int.MIN_VALUE` fails the bit trick |
| `NativeScryptModule.IsPowerOfTwoOnAllInts` | android/app/src/main/java/com/turboscrypt/NativeScryptModule.kt:101-103 | over the whole `Int` range the bit trick holds exactly for 0, `Int.MIN_VALUE` and the powers of two including 1, so the `NInt <= 1` guard is what rejects 0, 1 and `Int.MIN_VALUE` |
| `NativeScryptModule.ValidateAccepts` | android/app/src/main/java/com/turboscrypt/NativeScryptModule.kt:37-42 | validation succeeds iff N is `2^k` with `k >= 1`, r >= 1, p >= 1 and dkLen >= 1 |
| `NativeScryptModule.ValidateReportsFirstFailure` | android/app/src/main/java/com/turboscrypt/NativeScryptModule.kt:37-42 | the reported failure is the first violated condition in the order N, r, p, dkLen, each with its own message |
| `NativeScryptModule.ValidateExample` | android/app/src/main/java/com/turboscrypt/NativeScryptModule.kt:37-40 | N=3 with r=0 reports the N message; N=16 with r=p=dkLen=0 reports the r message |
| `NativeScryptModule.ValidateAfterConversion` | android/app/src/main/java/com/turboscrypt/NativeScryptModule.kt:31-42 | applied to the `toInt()` of the arguments, the gate admits exactly N = 2^k (1 <= k, N <= `Int.MAX_VALUE`) and r, p, dkLen >= 1; saturation cannot let a huge N through |
| `NativeScryptModule.InvalidParamsRejectBeforeDecoding` | android/app/src/main/java/com/turboscrypt/NativeScryptModule.kt:37-42 | on a gate failure, the promise is rejected with `SCRYPT_INVALID_PARAMS` and the first failure's message; the ending does not depend on `decode` or `generate`, so no decoding or derivation takes place |
| `NativeScryptModule.InvalidBase64Rejects` | android/app/src/main/java/com/turboscrypt/NativeScryptModule.kt:49-56 | a decode failure of password or salt becomes "Invalid base64 input", is rejected with `SCRYPT_INVALID_PARAMS`, and no thread starts |
| `NativeScryptModule.StartsWithDecodedInputs` | android/app/src/main/java/com/turboscrypt/NativeScryptModule.kt:46-69 | once the gate and decoding pass, the thread starts with the decoded bytes and the converted parameters |
| `NativeScryptModule.OutcomeRouting` | android/app/src/main/java/com/turboscrypt/NativeScryptModule.kt:58-98 | the code is `SCRYPT_INVALID_PARAMS` iff the main thread threw and `SCRYPT_ERROR` iff the derivation threw an `Exception`; the promise resolves iff a key was derived and stays pending iff the derivation threw an `Error`; no other code occurs |
| `NativeScryptModule.ResolvedValueIsHexOfKey` | android/app/src/main/java/com/turboscrypt/NativeScryptModule.kt:62-81 | a resolution implies the parameters passed the gate, and its value is the lowercase hex of the derived key: `2 * dkLen` characters in `0-9a-f` that decode back to the key (under the key-length assumption) |
| `NativeScryptModule.Promise.constructor` | android/app/src/main/java/com/turboscrypt/NativeScryptModule.kt:25 | a promise starts pending |
| `NativeScryptModule.Promise.Resolve` | android/app/src/main/java/com/turboscrypt/NativeScryptModule.kt:81 | `resolve` settles a pending promise with the value and leaves a settled one alone |
| `NativeScryptModule.Promise.Reject` | android/app/src/main/java/com/turboscrypt/NativeScryptModule.kt:97 | `reject` settles a pending promise with the code and message and leaves a settled one alone |
| `NativeScryptModule.Scrypt` | android/app/src/main/java/com/turboscrypt/NativeScryptModule.kt:17-99 | the main-thread body either rejects with `SCRYPT_INVALID_PARAMS` and the main-thread message and starts no thread, or starts exactly the thread of the main-thread result and leaves the promise untouched |
| `NativeScryptModule.RunThread` | android/app/src/main/java/com/turboscrypt/NativeScryptModule.kt:59-93 | the thread body settles the promise as the background result says: resolved with the hex of the key, rejected with `SCRYPT_ERROR`, or untouched |
| `NativeScryptModule.Call` | android/app/src/main/java/com/turboscrypt/NativeScryptModule.kt:17-99 | one call on a fresh promise, followed by its thread, ends in the state of the whole-call function |
| `NativeScryptJs.ToUint8` | specs/NativeScrypt.ts:31 | each element of a `number[]` becomes a byte congruent to it modulo 256 |
| `NativeScryptJs.BinaryStringCodes` | specs/NativeScrypt.ts:38-41 | the binary string has the same length as the byte sequence and character `i` has code byte `i` |
| `NativeScryptJs.BinaryStringInjective` | specs/NativeScrypt.ts:38-41 | distinct byte sequences give distinct binary strings |
| `NativeScryptJs.BtoaArgumentShape` | specs/NativeScrypt.ts:21-41 | string input goes to `btoa` unchanged; for `Uint8Array`, `number[]` and `ArrayBuffer` the argument has one character per byte with that byte's code, and the bytes are the view, the numbers modulo 256, or the buffer; any other value gives no argument |
| `NativeScryptJs.BytesToBase64` | specs/NativeScrypt.ts:21-43 | the method (dispatch, then the byte loop) returns exactly `btoa` of that argument, or throws "Invalid BytesLike input" for any other value |
| `NativeScryptJs.ProgressArgument` | specs/NativeScrypt.ts:70 | an omitted callback is forwarded as `null` and a supplied one unchanged |
| `NativeScryptJs.ModuleMissingRejects` | specs/NativeScrypt.ts:54-56 | without the native module the call rejects with "NativeScrypt module not found" whatever its other arguments, so no input is converted |
| `NativeScryptJs.UnsupportedInputRejects` | specs/NativeScrypt.ts:34-35 | an unsupported password, or an unsupported salt after a good password, rejects with "Invalid BytesLike input" before the native call |
| `NativeScryptJs.ScryptFraming` | specs/NativeScrypt.ts:45-75 | the native call receives the two base64 strings, the numbers unchanged and `progress or null`; the result fulfils exactly when the native call does, with `"0x"` followed by the native result; otherwise it ends as the conversion or the native call did |
| `Bridge.JvmBytes` | android/app/src/main/java/com/turboscrypt/NativeScryptModule.kt:50-51 | the decoded `ByteArray` holds the same byte values, read as unsigned, as the JavaScript bytes |
| `Bridge.DerivedKeyReachesCaller` | specs/NativeScrypt.ts:58-74 | for `Uint8Array`, `number[]` or `ArrayBuffer` inputs that survive the base64 crossing and valid parameters, the JavaScript call fulfils with `"0x"` plus the hex of the key derived from those bytes: `2 + 2 * dkLen` characters (dkLen after `toInt()`, so any dkLen >= 1), decodable back to the key |
| `Bridge.InvalidParamsReachCaller` | specs/NativeScrypt.ts:63-71 | parameters the Kotlin gate refuses reach JavaScript as a rejection with code `SCRYPT_INVALID_PARAMS` and the first failure's message |
| `KotlinTypes.ToInt` | android/app/src/main/java/com/turboscrypt/NativeScryptModule.kt:31-34 | defines `toInt()` of an integral `Double`: the value itself inside the `Int` range, saturated outside it (properties in `ToIntKeepsRangeAndSign`) |
| `KotlinTypes.Bits` | android/app/src/main/java/com/turboscrypt/NativeScryptModule.kt:102 | the 32-bit two's complement pattern of an `Int`, read unsigned: below 2^32 and congruent to the value modulo 2^32 |
| `KotlinTypes.And` | android/app/src/main/java/com/turboscrypt/NativeScryptModule.kt:102 | defines Kotlin `x and y` on `Int` as the bitwise and of the two 32-bit patterns (properties in `BitAndSelf`, `AndPredecessor`) |
| `NativeScryptModule.IsPowerOfTwo` | android/app/src/main/java/com/turboscrypt/NativeScryptModule.kt:101-103 | defines `isPowerOfTwo(n)` as `n and (n - 1) == 0` with wrapping `n - 1` (properties in `IsPowerOfTwoCorrect`, `IsPowerOfTwoOnAllInts`) |
| `NativeScryptModule.ParamError.Message` | android/app/src/main/java/com/turboscrypt/NativeScryptModule.kt:37-42 | defines the message of each gate failure, character for character as each `IllegalArgumentException` is thrown (used by `ValidateReportsFirstFailure`, `InvalidParamsRejectBeforeDecoding` and `Bridge.InvalidParamsReachCaller`) |
| `NativeScryptModule.Validate` | android/app/src/main/java/com/turboscrypt/NativeScryptModule.kt:37-42 | defines the gate: the first failed check in the order N, r, p, dkLen, or none (properties in `ValidateAccepts`, `ValidateReportsFirstFailure`) |
| `NativeScryptModule.MainThread` | android/app/src/main/java/com/turboscrypt/NativeScryptModule.kt:27-56 | defines the main-thread part: conversion, gate, then decoding of password and salt, ending in an exception message or a started job (properties in `InvalidParamsRejectBeforeDecoding`, `InvalidBase64Rejects`, `StartsWithDecodedInputs`) |
| `NativeScryptModule.Background` | android/app/src/main/java/com/turboscrypt/NativeScryptModule.kt:59-93 | defines the thread body's ending: resolve with the hex of the key, reject with `SCRYPT_ERROR` on an `Exception`, no settle on an `Error` (properties in `OutcomeRouting`, `ResolvedValueIsHexOfKey`) |
| `NativeScryptModule.Invoke` | android/app/src/main/java/com/turboscrypt/NativeScryptModule.kt:17-99 | defines the state one whole call leaves the promise in: a main-thread exception rejects with `SCRYPT_INVALID_PARAMS`, otherwise the thread body decides (properties in `OutcomeRouting`; `Call` is proved to match it) |
| `NativeScryptJs.ByteView` | specs/NativeScrypt.ts:26-36 | defines the `Uint8Array` each non-string kind becomes: the view itself, the numbers through ToUint8, the buffer's bytes; none for any other value (properties in `BtoaArgumentShape`) |
| `NativeScryptJs.FromCharCode` | specs/NativeScrypt.ts:40 | defines `String.fromCharCode(byte)`: the one character whose code is the byte's value (properties in `BinaryStringCodes`) |
| `NativeScryptJs.BinaryString` | specs/NativeScrypt.ts:38-41 | defines the string the `forEach` loop builds, one `String.fromCharCode` per byte in order (properties in `BinaryStringCodes`; `BytesToBase64`'s loop is proved to build it) |
| `NativeScryptJs.BtoaArgument` | specs/NativeScrypt.ts:21-36 | defines the string handed to `btoa`: a string input itself, otherwise the binary string of its bytes, or none for an unsupported value (properties in `BtoaArgumentShape`) |
| `NativeScryptJs.ToBase64` | specs/NativeScrypt.ts:21-43 | defines `bytesToBase64` as a value: `btoa` of that argument, or a throw of "Invalid BytesLike input" (`BytesToBase64` is proved to compute it) |
| `NativeScryptJs.Request` | specs/NativeScrypt.ts:58-71 | defines the native call's arguments: the base64 of password then salt, the numbers unchanged, and `progress || null`; the first conversion that throws ends it (properties in `ScryptFraming`) |
| `NativeScryptJs.Scrypt` | specs/NativeScrypt.ts:45-75 | defines the state the returned promise ends in: module check first, then the conversions, then the native call, with `"0x"` prepended on success (properties in `ModuleMissingRejects`, `UnsupportedInputRejects`, `ScryptFraming`) |
| `Bridge.ToJs` | specs/NativeScrypt.ts:63-71 | defines what the awaited native promise yields: a resolved value, a rejection carrying the code and message, or no settlement |
| `Bridge.Native` | android/app/src/main/java/com/turboscrypt/NativeScryptModule.kt:17-99 | defines the registered module: each JavaScript request runs the Kotlin call once on a fresh promise (used by `DerivedKeyReachesCaller`, `InvalidParamsReachCaller`) |

## Left out

- The scrypt algorithm (PBKDF2, Salsa20/8, BlockMix, ROMix) belongs to BouncyCastle's `SCrypt.generate`, whose code is not part of this model. It is a function parameter. That it returns exactly dkLen bytes is the assumption `HonoursKeyLength`. The upper bound on N and the other checks BouncyCastle makes show up only as a `ThrewException` ending.
- `btoa` and `android.util.Base64.decode` are foreign encoders and decoders and are parameters. Their mutual consistency is a precondition of `Bridge.DerivedKeyReachesCaller` and is not proved.
- `Double.toInt()` is modelled only for integral values, where it saturates at the `Int` range. Non-integral values, NaN and infinities are floating-point behaviour that the model leaves out. JS numbers are likewise modelled as integral values.
- `number[]` elements that are not integral numbers, and arrays holding values other than numbers, are floating-point or dynamic-type conversions and are not modelled.
- JavaScript strings with unpaired surrogates cannot be written as Dafny strings. `btoa`'s refusal of characters above 0xFF is inside the opaque `btoa`.
- Threading is modelled only through its outcome: `Thread { }.start()`, `runOnJSQueueThread` and `async`/`await` scheduling. The started thread is the returned `Job`. Its body is `RunThread`, run after the main-thread part, and interleavings are not modelled.
- The `try`/`catch` around `promise.resolve` (NativeScryptModule.kt:80-86) is left out. A failing `resolve` is a fault of the bridge, and the model's `Resolve` always succeeds. Settle-once behaviour is the model's reading of React Native's promise.
- Exception messages (`e.message`) are modelled as strings. A null message is not distinguished.
- Progress reporting is only partly modelled. `onProgress` is never invoked, so it is an unused parameter on the Kotlin side and is only forwarded on the JavaScript side.
- Logging (`Log.d`, `Log.e`) has no behavioural effect.
- `getName`, the `NAME` constant and `NativeScryptPackage.kt` are module registration. The model takes the registry lookup as an `Option`.
- `App.tsx` is UI state, random demo input and timing.
