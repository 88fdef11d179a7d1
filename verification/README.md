# HMAC, Diffie-Hellman and MAC-address formatting in Dafny

This project models three Python modules and proves properties of the models.

- **`hmac`**: the generic keyed-hash MAC of section 2 of RFC 2104, for any
  hash. The model covers:
  - the byte translation tables `trans_5C` and `trans_36`;
  - the `HMAC` constructor: argument checks, block-size choice, key
    normalisation, and seeding the inner and outer hash objects;
  - `update`, `copy`, `_current`, `digest`, `hexdigest`, `name` and `new`;
  - the generic path of the module-level one-shot `digest`.
- **Diffie-Hellman demonstration script**: the public values and the two
  derived secrets of finite-field key agreement (section 2.1.1 of RFC 2631),
  with the script's parameters p = 23, g = 5 and private keys 6 and 15.
- **MAC-address script**: the formatter that writes a 48-bit node number as
  `hh:hh:hh:hh:hh:hh`, most significant byte first.

The underlying hash algorithm is foreign code, so it is abstract here.
`Hashing.Hash` holds:
- a name;
- an uninterpreted function `H` from the bytes fed to the digest;
- a `digest_size`;
- an optional `block_size`.

A hash object (`Hashing.HashState`) is the algorithm plus every byte fed to
it so far:
- `update` appends;
- `copy` duplicates the value;
- `digest` is `H(fed)` and leaves the object as it was.

The construction assumes two things about the foreign hash object:
- `Conforming()` states that every digest has `digest_size` bytes. Every
  property that needs this assumption takes it as a precondition.
- Its `hexdigest()` is the lowercase hex of its `digest()`, that is
  `Hex.Encode(digest())`. `Hashing.HashState.HexDigest` is defined that way.

Python objects are values here. An `HMAC` object is the record
`Hmac.Session`. Each operation that mutates an object in Python returns the
updated record instead. Because records are values, a copy cannot share state
with its original, so later updates to one side cannot affect the other.

Modules:
- `Base`: bytes, `Option`, `Result`, zero runs.
- `Arith`: powers and facts about division.
- `Hex`: lowercase hex text.
- `Hashing`: the abstract hash.
- `Hmac`: the construction.
- `HmacProperties`: the RFC 2104 reference definition and the lemmas relating
  the construction to it.
- `DiffieHellman`: the key agreement.
- `MacFormat`: the address formatter and its parser.

## Model

| member | source | states |
|---|---|---|
| Hmac.TablesAreXor | hashing-message-authentication-code-algorithm.py:15-16 | entry `x` of `trans_5C` is `x ^ 0x5C` and entry `x` of `trans_36` is `x ^ 0x36`, for every byte `x` |
| Hmac.TranslateIsXor | hashing-message-authentication-code-algorithm.py:102-103 | translating a key through either table XORs every byte with that table's pad and keeps the length |
| Hmac.ResolveBlockSize | hashing-message-authentication-code-algorithm.py:82-95 | a declared `block_size` of at least 16 is used without a warning. One below 16 is replaced by 64 with a too-small warning that carries the declared value. A missing one gives 64 with a no-attribute warning. The result is always at least 16 |
| Hmac.ZeroPad | hashing-message-authentication-code-algorithm.py:100 | `ljust` with zero bytes: the key is a prefix of the result, everything after it is zero, and the length is the larger of the width and the key length |
| Hmac.NormalizeKey | hashing-message-authentication-code-algorithm.py:97-100 | a key no longer than the block size is zero-padded to exactly the block size. A longer key is replaced by its digest, which is then zero-padded: the result is the digest followed by zeros, exactly as long as the larger of the block size and the digest. When the digest fits in a block, the result is exactly one block long |
| Hmac.Init | hashing-message-authentication-code-algorithm.py:77-106 | the session's `outer` has been fed the normalised key XOR 0x5C, and its `inner` the normalised key XOR 0x36 followed by `msg` when one is given. `block_size` is the resolved size, the warning is the resolver's, and the session and both its hash objects run exactly the given `digestmod` |
| Hmac.New | hashing-message-authentication-code-algorithm.py:63-67 | fails exactly when the key is not bytes or `digestmod` is missing. A non-bytes key raises the `TypeError` (checked first) and a missing `digestmod` raises the `ValueError`, each with the source's message. Otherwise the result is the constructed session |
| HmacProperties.NameFollowsHash | hashing-message-authentication-code-algorithm.py:108-119 | a session's `name` is `hmac-` followed by the name of the hash it was built over, whatever the key and message, and `update`, `copy` and the copy as written keep it |
| HmacProperties.NameIdentifiesHash | hashing-message-authentication-code-algorithm.py:108-119 | two sessions have the same `name` if and only if their hashes have the same name |
| Hmac.Update | hashing-message-authentication-code-algorithm.py:121-132 | `msg` is appended to the inner hash's input. `outer`, the algorithm, `digest_size` and `block_size` are unchanged |
| Hmac.CopyAsWritten | hashing-message-authentication-code-algorithm.py:134-150 | the copy has the same algorithm, `digest_size` and inputs of both hash objects, and no `block_size` |
| Hmac.Copy | hashing-message-authentication-code-algorithm.py:134-150 | the corrected copy also keeps `block_size` |
| Hmac.BlockSize | hashing-message-authentication-code-algorithm.py:95 | reading `block_size` succeeds exactly when the attribute was set, returns the value that was set, and otherwise raises the `AttributeError` |
| Hmac.Current | hashing-message-authentication-code-algorithm.py:152-160 | the returned hash object has been fed the outer input followed by the inner digest, and the session is not changed |
| Hmac.Digest | hashing-message-authentication-code-algorithm.py:162-173 | the digest is H(outer input ‖ H(inner input)), and it is `digest_size` bytes long for a conforming hash |
| Hmac.HexDigest | hashing-message-authentication-code-algorithm.py:175-186 | the text decodes, as lowercase hex, to exactly `digest()`, and is twice as long |
| Hmac.OneShotWith | hashing-message-authentication-code-algorithm.py:220-236 | the generic one-shot steps for a given block size produce a digest of `digest_size` bytes |
| Hmac.OneShotBlockSizeAsWritten | hashing-message-authentication-code-algorithm.py:223 | the one-shot block size equals the constructor's choice when the hash declares no `block_size` or one of at least 16. For a declared size below 16 it keeps that size, which is below 16, while the constructor uses 64 |
| Hmac.OneShotAsWritten | hashing-message-authentication-code-algorithm.py:192-236 | the one-shot `digest` as written yields `digest_size` bytes for a conforming hash |
| Hmac.OneShot | hashing-message-authentication-code-algorithm.py:192-236 | the one-shot `digest` with the constructor's block-size rule equals `new(key, msg, h).digest()` on every input |
| HmacProperties.Rfc2104 | hashing-message-authentication-code-algorithm.py:97-103 | the reference MAC of section 2 of RFC 2104, written independently of the session, is `digest_size` bytes long |
| HmacProperties.NormalizeKeyIsK0 | hashing-message-authentication-code-algorithm.py:97-100 | the normalised key is the RFC's K0: the key, or its hash if it is longer than B, followed by zeros up to B bytes |
| HmacProperties.SessionComputesRfc2104 | hashing-message-authentication-code-algorithm.py:48-173 | a session built with `msg` digests to the RFC 2104 MAC of `msg` under `key` |
| HmacProperties.Feed | hashing-message-authentication-code-algorithm.py:121-132 | a run of `update` calls touches neither `outer` nor the algorithm nor `block_size` |
| HmacProperties.UpdateUpdate | hashing-message-authentication-code-algorithm.py:121-132 | `update(m1); update(m2)` equals `update(m1 + m2)` |
| HmacProperties.FeedIsOneUpdate | hashing-message-authentication-code-algorithm.py:121-132 | any sequence of `update` calls equals one `update` with their concatenation |
| HmacProperties.InitWithMessage | hashing-message-authentication-code-algorithm.py:105-106 | constructing with `msg` equals constructing without one and then calling `update(msg)`, with the same warning |
| HmacProperties.StreamingDigest | hashing-message-authentication-code-algorithm.py:121-173 | streaming equals batch: after any chunks, the digest is the RFC 2104 MAC of their concatenation |
| HmacProperties.DigestThenContinue | hashing-message-authentication-code-algorithm.py:152-173 | a mid-stream digest is the MAC of the prefix, and after more updates the digest is the MAC of everything fed, so finalising does not consume the session |
| HmacProperties.CopyAgrees | hashing-message-authentication-code-algorithm.py:134-150 | a copy digests like its original, both now and after any common further input. The copy as written differs from its original only in `block_size` |
| HmacProperties.OversizedKeyCollapse | hashing-message-authentication-code-algorithm.py:97-98 | a key longer than the block size gives the same session as its digest used as the key |
| HmacProperties.TrailingZeroKey | hashing-message-authentication-code-algorithm.py:100 | below the block size, appending a zero byte to the key does not change the session |
| HmacProperties.ErrorsPrecedeSeeding | hashing-message-authentication-code-algorithm.py:63-67 | a construction error does not depend on `msg`: it is raised before any hash object is fed |
| HmacProperties.DigestSizes | hashing-message-authentication-code-algorithm.py:79 | for a conforming hash, `digest()` has `digest_size` bytes, `digest_size` is the hash's, and `hexdigest()` has twice as many characters |
| HmacProperties.OneShotAsWrittenAgrees | hashing-message-authentication-code-algorithm.py:223 | the one-shot path as written equals `new(key, msg, h).digest()` when `h` has no `block_size` or one of at least 16 |
| HmacProperties.OneShotWithClosedForm | hashing-message-authentication-code-algorithm.py:220-236 | the one-shot steps for block size `b` compute H((K XOR opad) ‖ H((K XOR ipad) ‖ msg)), where K is the key normalised to `b` |
| HmacProperties.TinyBlockHash | hashing-message-authentication-code-algorithm.py:82-88 | a conforming hash that declares an 8-byte block and whose one-byte digest is the input length |
| HmacProperties.SmallBlockOneShot | hashing-message-authentication-code-algorithm.py:223-228 | for such a hash, with any declared block size `b` below 16, the one-shot path as written gives the empty key and empty message the digest `b + 1` when `b >= 0`: the key is padded to `b` bytes. When `b < 0` the digest is 2: the empty key counts as longer than the block and is replaced by its one-byte digest, which is not padded |
| HmacProperties.SmallBlockSession | hashing-message-authentication-code-algorithm.py:82-88 | for the same hash, the session replaces the block size by 64, so its digest of the empty message under the empty key is 65 |
| HmacProperties.SmallBlockDiverges | hashing-message-authentication-code-algorithm.py:223 | for every declared block size below 16, the one-shot path as written and `new(...).digest()` disagree |
| HmacProperties.OneShotAsWrittenDiverges | hashing-message-authentication-code-algorithm.py:223-228 | for `TinyBlockHash`, with an empty key and message, the one-shot path as written yields 9 and the session yields 65 |
| HmacProperties.OneShotAgrees | hashing-message-authentication-code-algorithm.py:192-236 | the corrected one-shot path equals both the session digest and the RFC 2104 MAC |
| HmacProperties.CopyAsWrittenLosesBlockSize | hashing-message-authentication-code-algorithm.py:145-150 | a fresh session's `block_size` reads as the resolved size, but on its copy as written it raises `AttributeError` |
| HmacProperties.CopyKeepsBlockSize | hashing-message-authentication-code-algorithm.py:95 | the corrected copy, and a copy of a copy, read the same `block_size` as the original |
| Hex.Octet | extract-mac-function.py:8 | `'{:02x}'` of a byte is two lowercase hex digits whose values give back the byte |
| Hex.DecodeEncode | hashing-message-authentication-code-algorithm.py:185-186 | decoding the lowercase hex of any bytes gives the bytes back |
| Hex.EncodeDecode | hashing-message-authentication-code-algorithm.py:185-186 | any text that decodes is the hex of what it decodes to |
| DiffieHellman.ModPow | diffie-hellman-algorithm.py:17-29 | `(b ** e) % p`, which gives each public value and each derived secret, lies in `[0, p)` |
| DiffieHellman.PowMod | diffie-hellman-algorithm.py:25-30 | reducing the base modulo `p` first does not change a modular power |
| DiffieHellman.KeyAgreement | diffie-hellman-algorithm.py:25-30 | for every modulus, base and pair of private keys, each party's secret is `g^(a*b) mod p`, so the two secrets agree |
| DiffieHellman.Run | diffie-hellman-algorithm.py:17-29 | A is `g^a mod p` and B is `g^b mod p`. A, B, K_a and K_b all lie in `[0, p)`, and K_a == K_b == `g^(a*b) mod p` |
| DiffieHellman.ScriptValues | diffie-hellman-algorithm.py:4-30 | with p = 23, g = 5 and keys 6 and 15, A = 8, B = 19, and both secrets are 2 |
| DiffieHellman.ModulusIsPrime | diffie-hellman-algorithm.py:4 | 23 is prime |
| DiffieHellman.PowerChainEntries | diffie-hellman-algorithm.py:5 | a table that starts at `g mod p` and multiplies by `g` modulo `p` at each step holds `g^(k+1) mod p` at index `k` |
| DiffieHellman.BaseIsPrimitiveRoot | diffie-hellman-algorithm.py:5 | 5 is a primitive root modulo 23: 5^1 … 5^22 mod 23 are pairwise distinct |
| MacFormat.Shr | extract-mac-function.py:8 | `n >> k` is the quotient of `n` by 2^k |
| MacFormat.ByteAt | extract-mac-function.py:8 | `(n >> s) & 0xff` is below 256 and is the remainder of `n >> s` modulo 256 |
| MacFormat.Reverse | extract-mac-function.py:9 | `[::-1]` keeps the length and puts entry `i` at position `len - 1 - i` |
| MacFormat.Join | extract-mac-function.py:8 | joining no groups gives the empty text, and joining one group gives that group |
| MacFormat.Groups | extract-mac-function.py:8-9 | the comprehension's groups are the two-digit hex of the node's six low bytes, least significant first, taken by repeated division by 256 |
| MacFormat.FormatNode | extract-mac-function.py:8-9 | the address text is 17 characters long |
| MacFormat.LowBytesAreShifts | extract-mac-function.py:8 | byte `j` of the node, taken by repeated division by 256, is `(node >> 8*j) & 0xff` |
| MacFormat.JoinLayout | extract-mac-function.py:8 | two-character groups joined with `:` give `3n - 1` characters, with group `i` at offset `3i` and a `:` after every group but the last |
| MacFormat.FormatLayout | extract-mac-function.py:8-9 | the output has 17 characters and `:` at offsets 2, 5, 8, 11 and 14. Group `i` is the hex of `(node >> 8*(5-i)) & 0xff`, so the most significant byte comes first |
| MacFormat.FormatGroup | extract-mac-function.py:8-9 | group `i` of the output is the hex of the byte at shift `8*(5-i)` |
| MacFormat.FormatDigits | extract-mac-function.py:8 | every non-separator character of the output is a lowercase hex digit |
| MacFormat.HighBitsIgnored | extract-mac-function.py:8-9 | bits of the node at position 48 and above do not affect the output |
| MacFormat.ParseFormat | extract-mac-function.py:8-9 | parsing the output as six big-endian bytes yields `node mod 2^48` |
| MacFormat.FormatParse | extract-mac-function.py:8-9 | every text with six groups that parses is the output for the value it parses to |
| MacFormat.FormatInjective | extract-mac-function.py:8-9 | two nodes below 2^48 have the same output if and only if they are equal |
| MacFormat.ParseRender | extract-mac-function.py:8 | parsing joined two-digit groups gives back their bytes |
| MacFormat.RenderParse | extract-mac-function.py:8 | whatever the group parser accepts is the joined rendering of what it returns |
| MacFormat.LittleValueOfLowBytes | extract-mac-function.py:8 | the low `k` bytes of `n` stand for `n mod 2^(8k)` |

## Left out

- Concrete hash algorithms. `hashlib`'s name registry, `hashlib.new` by name, and the duck typing of `digestmod` as a callable, a string or a module are all collapsed into one abstract `Hash` value. These are foreign code, and only the facts stated about `H` are used.
- The OpenSSL fast path of the one-shot `digest`, and the import of `_hashlib`. This is a native call into code outside the module, so only the generic path is modelled.
- `compare_digest`. It is an imported C primitive that the module never uses.
- The warnings channel. The constructor's two warnings are returned as a `BlockSizeWarning` value next to the session. Their formatted text, category and stack level are not modelled.
- The class attribute `blocksize` that subclasses may override. The model fixes it at its default of 64.
- The module-level `digest_size = None`. It is a placeholder attribute with no behaviour.
- A non-bytes key or message on the one-shot path and in `update`. Keys and messages are byte sequences here. The error Python raises depends on the value. An `int` key fails at `len(key)` on line 225. A `str` key no longer than the block fails at line 228, where `str + bytes` raises a `TypeError`. A longer `str` key, or a non-bytes message, fails inside the foreign hash object.
- Hmac.Digest: the length guarantee holds only for a conforming hash, because the digest length is a property of the foreign hash function that the model assumes rather than proves.
- Mutation and aliasing of Python objects, and concurrent use of a session. Sessions are immutable values, so copies are independent by construction.
- All console output of the Diffie-Hellman and MAC-address scripts.
- `uuid.getnode()`, a host hardware lookup. The node number is a parameter.
- MacFormat.ByteAt: `& 0xff` is modelled as the remainder modulo 256. The two agree for the non-negative node numbers `uuid.getnode()` returns, and negative nodes are not modelled.
- DiffieHellman.ModPow: requires p > 0. Python raises `ZeroDivisionError` for p = 0, and the script's modulus is 23.
- Negative private keys. For them Python's `**` returns a float, so private keys are natural numbers.

## Findings

| source | as written | input that shows it | evidently intended | confidence | as-written member | corrected member |
|---|---|---|---|---|---|---|
| hashing-message-authentication-code-algorithm.py:223 | the one-shot `digest` takes `getattr(inner, 'block_size', 64)` without the constructor's rule that a block size below 16 is replaced by 64 | a hash whose one-byte digest is the input length, declaring `block_size` 8, with an empty key and message: the one-shot path gives `[9]` and `new(...).digest()` gives `[65]` (and likewise for every declared size below 16: `b + 1` for a size `b >= 0`, and 2 for a negative size) | the one-shot path computes the same MAC as `new(key, msg, digest).digest()` | not executed; medium | HmacProperties.OneShotAsWrittenDiverges | Hmac.OneShot |
| hashing-message-authentication-code-algorithm.py:145-150 | `copy()` carries `digest_cons`, `digest_size`, `inner` and `outer`, but not the `block_size` set at line 95 | any session: reading `block_size` on its copy raises `AttributeError` | a copy has every attribute of its original | not executed; high | HmacProperties.CopyAsWrittenLosesBlockSize | Hmac.Copy |
