# Player-head skins and reflective member lookup, in Dafny

This project models two pieces of TabooLib.

**`XSkull`**, the skull-texture helper, decides how to apply a caller's skin identifier to a player head.
It checks the identifier in a fixed order:

1. A Minecraft username goes to the engine's owner assignment, which replaces the head's game profile with the player's.
2. A string mentioning `textures.minecraft.net` is a full texture URL.
3. A string longer than 100 characters that the JDK Base64 decoder accepts is a raw profile value.
4. Anything else is a texture hash that gets appended to `https://textures.minecraft.net/texture/`.

For a URL, the texture descriptor `{"textures":{"SKIN":{"url":"<url>"}}}` is built by concatenation.
Its bytes are then Base64-encoded and stored as the `textures` property of a fresh game profile.
`getSkinValue` reads back the first non-empty `textures` value.

**`ReflexClass`** is TabooLib's reflection wrapper.
It looks up a field or method in the class, then the superclass, then the interfaces in order.
It matches argument classes against parameter types, where `null` acts as a wildcard.
It also picks constructors by arity and argument instances.
The class hierarchy is an inductive datatype.
Name remapping, boxing of primitives and `isAssignableFrom` are abstract functions supplied in a `Runtime` value.

Files:

- `wrappers.dfy`: `Option` (a nullable reference) and `Result` (a call that may throw).
- `bytes.dfy`: the byte type.
- `seqs.dfy`: the first-match search behind `firstOrNull` and the early-return loops.
- `base64.dfy`: the JDK Base64 encoder and basic decoder (RFC 4648, section 4 alphabet).
- `utf8.dfy`: `String.getBytes()` as UTF-8 (RFC 3629), with its inverse.
- `xskull.dfy`: classification, descriptor encoding, and profile write and read.
- `reflex.dfy`: `ReflexClass` construction and member lookup.

`java.util.Base64` belongs to the JDK, not to TabooLib; the decoder here follows the documented behaviour of `java.util.Base64.getDecoder()`. Its rules are:

- Padding is optional at the end.
- A final unit of a single character is rejected.
- Nothing may follow padding.
- Leftover bits are not checked.
- The empty string is accepted.

`IsBase64Iff` restates these rules as a shape predicate that does not depend on the decoding loop.

## Model

| member | source | states |
|---|---|---|
| `XSkull.IsUsername` | platform-bukkit/src/main/java/taboolib/library/xseries/XSkull.java:197-209 | true exactly when the name has 3 to 16 characters, all in `[A-Za-z0-9_]`; false for any shorter or longer name |
| `XSkull.UsernameCharsFrom` | platform-bukkit/src/main/java/taboolib/library/xseries/XSkull.java:203-207 | the character loop succeeds exactly when every character from the given position on is a username character |
| `XSkull.Contains` | platform-bukkit/src/main/java/taboolib/library/xseries/XSkull.java:121 | `contains` is true exactly when the pattern occurs at some position |
| `XSkull.UsernameCharsNeverMentionHost` | platform-bukkit/src/main/java/taboolib/library/xseries/XSkull.java:117-121 | a string made only of username characters, of any length, never contains `textures.minecraft.net`, so the username and URL branches never compete |
| `XSkull.Base64NeverMentionsHost` | platform-bukkit/src/main/java/taboolib/library/xseries/XSkull.java:121-125 | no string `isBase64` accepts contains `textures.minecraft.net`, so the URL and raw-value branches never compete |
| `XSkull.Classify` | platform-bukkit/src/main/java/taboolib/library/xseries/XSkull.java:117-129 | exactly one branch, each fixed by its own test alone: username iff the username rule holds; URL iff the host occurs; raw value iff longer than 100 and well-formed Base64; suffix iff none of these holds |
| `XSkull.EncodeBase64` | platform-bukkit/src/main/java/taboolib/library/xseries/XSkull.java:156-158 | output is padded and uses only the RFC 4648 section 4 alphabet plus '='; its length is 4·⌈n/3⌉ for n UTF-8 bytes; it passes `isBase64`; decoding gives back the original string (strings of Unicode scalar values, see below) |
| `XSkull.TextureValue` | platform-bukkit/src/main/java/taboolib/library/xseries/XSkull.java:146-148 | the stored value decodes to exactly `{"textures":{"SKIN":{"url":"` + url + `"}}}`, with the URL neither escaped nor altered; it is never empty |
| `XSkull.TextureValueLength` | platform-bukkit/src/main/java/taboolib/library/xseries/XSkull.java:156-158 | for an ASCII URL the stored value has 4·⌈(32 + \|url\|)/3⌉ characters |
| `XSkull.TextureValueInjective` | platform-bukkit/src/main/java/taboolib/library/xseries/XSkull.java:146-148 | different URLs give different stored values |
| `XSkull.SkullByValue` | platform-bukkit/src/main/java/taboolib/library/xseries/XSkull.java:133-143 | fails with an illegal-argument error exactly when the value is empty, before any profile is built; if the profile field is writable, the new profile has no owner name, so any previous owner is gone, and `getSkinValue` reads back this value and id; otherwise the head is unchanged |
| `XSkull.ValueFromTextures` | platform-bukkit/src/main/java/taboolib/library/xseries/XSkull.java:146-148 | never fails; once written, the profile has no owner name and the head's skin value decodes to the descriptor of the given URL |
| `XSkull.TexturesFromUrlValue` | platform-bukkit/src/main/java/taboolib/library/xseries/XSkull.java:151-153 | never fails; the written skin value decodes to the descriptor of `https://textures.minecraft.net/texture/` + suffix |
| `XSkull.GetSkinValue` | platform-bukkit/src/main/java/taboolib/library/xseries/XSkull.java:174-188 | none exactly when there is no profile or every `textures` value is empty; otherwise returns the first non-empty value with the profile's id |
| `XSkull.ApplySkin` | platform-bukkit/src/main/java/taboolib/library/xseries/XSkull.java:115-130 | fails with a class-cast error exactly when the metadata is not a skull's; otherwise no branch throws: a username replaces the profile with the one the owner assignment installs for that name; a URL, raw value or suffix replaces it with an ownerless profile whose skin value reads back as the URL's descriptor, the raw value verbatim, or the descriptor of base URL + suffix; if the profile field is unwritable, a non-username leaves the head unchanged |
| `XSkull.ApplySkinIdempotent` | platform-bukkit/src/main/java/taboolib/library/xseries/XSkull.java:115-130 | applying the same identifier twice gives the same head as applying it once with the later profile id; non-skull metadata fails the same way both times |
| `XSkull.ClassifyShortHash` | platform-bukkit/src/main/java/taboolib/library/xseries/XSkull.java:117-120 | the 6-character hash `abc123` is taken for a username, because the username check runs first |
| `XSkull.ClassifyFullUrl` | platform-bukkit/src/main/java/taboolib/library/xseries/XSkull.java:121-124 | `https://textures.minecraft.net/texture/abc123` takes the URL branch |
| `XSkull.ClassifyPunctuated` | platform-bukkit/src/main/java/taboolib/library/xseries/XSkull.java:117-129 | `abcXYZ123!!!` falls through to the suffix branch |
| `XSkull.ClassifyEmpty` | platform-bukkit/src/main/java/taboolib/library/xseries/XSkull.java:117-129 | the empty identifier is not rejected and falls through to the suffix branch |
| `Base64.Encode` | platform-bukkit/src/main/java/taboolib/library/xseries/XSkull.java:157 | encoder output has 4·⌈n/3⌉ characters for n bytes, each in the alphabet or '=' |
| `Base64.DecodeEncode` | platform-bukkit/src/main/java/taboolib/library/xseries/XSkull.java:156-171 | the decoder gives back exactly the encoded bytes |
| `Base64.IsBase64Iff` | platform-bukkit/src/main/java/taboolib/library/xseries/XSkull.java:164-171 | `isBase64` holds exactly for alphabet characters whose count mod 4 is not 1, optionally completed by '=' (count mod 4 = 3) or '==' (count mod 4 = 2) |
| `Base64.EncodedIsBase64` | platform-bukkit/src/main/java/taboolib/library/xseries/XSkull.java:156-171 | every encoder output passes `isBase64` |
| `Base64.EncodeInjective` | platform-bukkit/src/main/java/taboolib/library/xseries/XSkull.java:157 | different byte strings have different encodings |
| `Utf8.DecodeEncode` | platform-bukkit/src/main/java/taboolib/library/xseries/XSkull.java:157 | `getBytes` loses no character: decoding its bytes gives back the string |
| `Reflex.Build` | common/src/main/kotlin/taboolib/common/reflect/ReflexClass.kt:25-47 | records the superclass exactly when there is one other than `Object`; one node per interface, in order; no node in the built tree has `Object` as superclass |
| `Reflex.BuiltSearchAvoidsObject` | common/src/main/kotlin/taboolib/common/reflect/ReflexClass.kt:39-41 | for a built class, no class visited after the class itself is `Object` |
| `Reflex.SearchIsFirstPick` | common/src/main/kotlin/taboolib/common/reflect/ReflexClass.kt:49-85 | the recursive lookup returns exactly the first member found along the pre-order list: the class, then its superclass subtree, then each interface subtree |
| `Reflex.SearchPrecedence` | common/src/main/kotlin/taboolib/common/reflect/ReflexClass.kt:54-64 | the class's own member wins; failing that, the superclass's answer; failing both, the first interface in declaration order that has an answer |
| `Reflex.OwnField` | common/src/main/kotlin/taboolib/common/reflect/ReflexClass.kt:54 | returns the first declared field of that name, in declaration order, and none exactly when the class declares no such field |
| `Reflex.FindField` | common/src/main/kotlin/taboolib/common/reflect/ReflexClass.kt:49-66 | a result is the class's own first field of the name looked up there, for the first visited class declaring one; none exactly when no class in the reachable hierarchy declares such a field |
| `Reflex.FindFieldPrecedence` | common/src/main/kotlin/taboolib/common/reflect/ReflexClass.kt:54-64 | a field the class itself declares is returned before the superclass is looked at; the superclass comes before any interface; interfaces are tried in declaration order |
| `Reflex.CompareFrom` | common/src/main/kotlin/taboolib/common/reflect/ReflexClass.kt:109-117 | the loop succeeds exactly when every remaining position fits |
| `Reflex.Compare` | common/src/main/kotlin/taboolib/common/reflect/ReflexClass.kt:105-118 | false whenever the lengths differ; otherwise true exactly when each argument class is null, or its boxed class equals the boxed parameter type or is assignable to it |
| `Reflex.NullArgumentIsWildcard` | common/src/main/kotlin/taboolib/common/reflect/ReflexClass.kt:111 | with a null argument at a position, the parameter type there does not affect the result |
| `Reflex.OwnMethod` | common/src/main/kotlin/taboolib/common/reflect/ReflexClass.kt:73 | returns the first declared method, in declaration order, with that name and parameters `compare` accepts, so among matching overloads the earliest wins; none exactly when there is no such method |
| `Reflex.FindMethod` | common/src/main/kotlin/taboolib/common/reflect/ReflexClass.kt:68-85 | a result is the class's own first matching method, for the first visited class having one; its name is the one looked up there and its arity equals the argument count; none exactly when no reachable class has such a method |
| `Reflex.ArgumentsFitFrom` | common/src/main/kotlin/taboolib/common/reflect/ReflexClass.kt:91-95 | the per-parameter loop succeeds exactly when each remaining argument is null or an instance of its boxed parameter type |
| `Reflex.FindConstructor` | common/src/main/kotlin/taboolib/common/reflect/ReflexClass.kt:87-103 | returns a declared constructor whose parameter count equals the argument count, with every non-null argument an instance of its parameter type, and no earlier constructor accepts; none exactly when no constructor accepts; only the class's own constructors are searched |

## Left out

- The static initializer that reflects on the `profile` field (XSkull.java:69-81) is left out. Its outcome is the `profileWritable` flag. When it is false, every profile write throws, the exception is caught and printed, and the head is returned as it was. This is not an error result.
- `printStackTrace` calls are left out because they are side effects only.
- `UUID.randomUUID()` becomes the caller-supplied `id`.
- Owner and texture share one game profile, as in the engine. Which profile the owner assignment installs for a name is an abstract function `owningProfile`, because the server resolves it.
- Bukkit calls are host-engine API and are left out: `getSkull`, `applySkin(ItemMeta, OfflinePlayer)`, `applySkin(ItemMeta, UUID)`, `Bukkit.getOfflinePlayer`, `setOwningPlayer`/`setOwner`, the `SUPPORTS_UUID` gate and `XMaterial.parseItem` (XSkull.java:85-112, 118). The username branch is modelled as that abstract owner assignment.
- In `getSkinValue`, a failure of `Reflex.getProperty` (XSkull.java:176-179) is not modelled separately. The head's profile is read directly, and a missing profile gives `None` as a failed read would. `GetSkinValue` takes skull metadata only; on another item's metadata the source's read fails and it returns `null`.
- `String.getBytes()` uses the platform default charset. The model takes it to be UTF-8, the default since JDK 18.
- Java strings are UTF-16 and may hold lone surrogates; model strings are sequences of Unicode scalar values. `length()` counts UTF-16 units and the model counts characters. This never changes the branch taken: any character outside ASCII fails both the username test and the Base64 test. The `encodeBase64` round trip is stated for scalar-value strings only: `getBytes()` writes '?' for a lone surrogate, so such a string does not decode back to itself.
- `ReflexClass` reflection plumbing is left out: `setAccessible`, the swallowed exception in `init`, which can leave a node partly filled, and the `ConcurrentHashMap` cache in `find` (ReflexClass.kt:25-47, 120-125).
- `Reflex.remapper` is modelled as a list of abstract renaming functions folded over the name. `nonPrimitive` and `isAssignableFrom` are abstract functions.
- `Project1.kt` (classloading, singleton lookup, jar scanning) is left out because it is I/O and runtime introspection.
