/** `XSkull`: how a player-head skin identifier is classified, how a texture
    URL is wrapped in the JSON texture descriptor and Base64-encoded, and how
    the texture value is read back from a head's game profile.  The host
    engine is abstracted: skull metadata is a value holding an optional game
    profile, which also carries the owning player. */
module XSkull {
  import opened Wrappers
  import opened Bytes
  import Seqs
  import Base64
  import Utf8

  /** The descriptor text up to the URL (`VALUE_PROPERTY`). */
  const ValueProperty: string := "{\"textures\":{\"SKIN\":{\"url\":\""
  /** The descriptor text after the URL. */
  const ValueClose: string := "\"}}}"
  /** The base URL a bare texture hash is appended to (`TEXTURES`). */
  const Textures: string := "https://textures.minecraft.net/texture/"
  /** The host name whose presence marks a full texture URL. */
  const TexturesHost: string := "textures.minecraft.net"
  /** A raw profile value must be longer than this many characters. */
  const RawValueMinLength: nat := 100

  // -----------------------------------------------------------------------
  // Username rule (isUsername)

  predicate IsUsernameChar(c: char) {
    c == '_' || ('A' <= c <= 'Z') || ('a' <= c <= 'z') || ('0' <= c <= '9')
  }

  /** The Minecraft username rule: 3 to 16 characters from [A-Za-z0-9_]. */
  predicate UsernameRule(name: string) {
    3 <= |name| <= 16 && forall i :: 0 <= i < |name| ==> IsUsernameChar(name[i])
  }

  /** The character loop of `isUsername`, from position `i` on. */
  function UsernameCharsFrom(name: string, i: nat): (b: bool)
    requires i <= |name|
    ensures b <==> forall j :: i <= j < |name| ==> IsUsernameChar(name[j])
    decreases |name| - i
  {
    if i == |name| then true
    else if !IsUsernameChar(name[i]) then false
    else UsernameCharsFrom(name, i + 1)
  }

  /** `isUsername`: the length test first, then the character loop. */
  function IsUsername(name: string): (b: bool)
    ensures b <==> UsernameRule(name)
    ensures |name| < 3 || |name| > 16 ==> !b
  {
    if |name| < 3 || |name| > 16 then false
    else UsernameCharsFrom(name, 0)
  }

  // -----------------------------------------------------------------------
  // Substring test (String.contains)

  predicate OccursAt(s: string, t: string, i: int) {
    0 <= i && i + |t| <= |s| && s[i..i + |t|] == t
  }

  /** An occurrence in `s[1..]` is an occurrence in `s` one place later. */
  lemma OccursAtShift(s: string, t: string, i: nat)
    requires |s| > 0
    ensures OccursAt(s[1..], t, i) <==> OccursAt(s, t, i + 1)
  {
    if 0 <= i && i + |t| <= |s| - 1 {
      assert s[1..][i..i + |t|] == s[i + 1..i + 1 + |t|];
    }
  }

  /** `s.contains(t)`. */
  function Contains(s: string, t: string): (b: bool)
    ensures b <==> exists i :: OccursAt(s, t, i)
    decreases |s|
  {
    if |s| < |t| then
      assert forall i :: !OccursAt(s, t, i);
      false
    else if s[..|t|] == t then
      assert OccursAt(s, t, 0);
      true
    else
      var r := Contains(s[1..], t);
      assert r ==> exists i :: OccursAt(s, t, i) by {
        if r {
          var i :| OccursAt(s[1..], t, i);
          OccursAtShift(s, t, i);
        }
      }
      assert (exists i :: OccursAt(s, t, i)) ==> r by {
        if exists i :: OccursAt(s, t, i) {
          var i :| OccursAt(s, t, i);
          assert i != 0;
          OccursAtShift(s, t, i - 1);
        }
      }
      r
  }

  /** The identifier names the texture host somewhere. */
  ghost predicate MentionsTexturesHost(s: string) {
    exists i :: OccursAt(s, TexturesHost, i)
  }

  /** A string made only of username characters, of any length, never
      mentions the texture host: the host contains '.', which is not a
      username character.  So the first two dispatch branches never compete
      on the characters alone (the length bound of 16 against the host's 22
      characters excludes it a second time). */
  lemma UsernameCharsNeverMentionHost(s: string)
    requires forall i :: 0 <= i < |s| ==> IsUsernameChar(s[i])
    ensures !MentionsTexturesHost(s)
  {
    forall i ensures !OccursAt(s, TexturesHost, i) {
      if 0 <= i && i + |TexturesHost| <= |s| {
        assert TexturesHost[8] == '.';
        assert s[i..i + |TexturesHost|][8] == s[i + 8];
        assert IsUsernameChar(s[i + 8]);
      }
    }
  }

  /** Nor can an accepted Base64 string mention the host: '.' is neither an
      alphabet character nor padding.  So the URL branch and the raw-value
      branch never compete either. */
  lemma Base64NeverMentionsHost(s: string)
    requires Base64.WellFormed(s)
    ensures !MentionsTexturesHost(s)
  {
    forall i ensures !OccursAt(s, TexturesHost, i) {
      if 0 <= i && i + |TexturesHost| <= |s| {
        assert TexturesHost[8] == '.';
        assert s[i..i + |TexturesHost|][8] == s[i + 8];
        assert !Base64.IsAlphabetChar('.');
        if Base64.AllAlphabet(s) {
          assert Base64.IsAlphabetChar(s[i + 8]);
        } else if |s| >= 1 && s[|s| - 1] == Base64.Pad && Base64.AllAlphabet(s[..|s| - 1]) {
          if i + 8 < |s| - 1 {
            assert s[..|s| - 1][i + 8] == s[i + 8];
          }
        } else {
          if i + 8 < |s| - 2 {
            assert s[..|s| - 2][i + 8] == s[i + 8];
          }
        }
      }
    }
  }

  // -----------------------------------------------------------------------
  // Classification (the dispatch of applySkin(ItemMeta, String))

  datatype Kind = Username | TextureUrl | ProfileValue | UrlSuffix

  /** The branch `applySkin` takes: username, then texture URL, then a long
      raw Base64 value, then a bare URL suffix. */
  function Classify(identifier: string): (k: Kind)
    ensures k == Username <==> UsernameRule(identifier)
    ensures k == TextureUrl <==> MentionsTexturesHost(identifier)
    ensures k == ProfileValue <==> |identifier| > RawValueMinLength && Base64.WellFormed(identifier)
    ensures k == UrlSuffix <==>
      && !UsernameRule(identifier)
      && !MentionsTexturesHost(identifier)
      && !(|identifier| > RawValueMinLength && Base64.WellFormed(identifier))
  {
    assert UsernameRule(identifier) ==> !MentionsTexturesHost(identifier) by {
      if UsernameRule(identifier) { UsernameCharsNeverMentionHost(identifier); }
    }
    Base64.IsBase64Iff(identifier);
    assert Base64.WellFormed(identifier) ==> !MentionsTexturesHost(identifier) by {
      if Base64.WellFormed(identifier) { Base64NeverMentionsHost(identifier); }
    }
    if IsUsername(identifier) then Username
    else if Contains(identifier, TexturesHost) then TextureUrl
    else if |identifier| > RawValueMinLength && Base64.IsBase64(identifier) then ProfileValue
    else UrlSuffix
  }

  // -----------------------------------------------------------------------
  // The texture descriptor and its encoding

  /** The JSON texture descriptor around `url`; the URL is not escaped. */
  function Descriptor(url: string): string {
    ValueProperty + url + ValueClose
  }

  /** How a reader of the profile value recovers the descriptor text:
      Base64-decode, then UTF-8-decode. */
  function DecodeValue(value: string): Option<string> {
    match Base64.Decode(value)
    case None => None
    case Some(bytes) => Utf8.Decode(bytes)
  }

  /** `encodeBase64`: Base64 of the UTF-8 bytes of `str`. */
  function EncodeBase64(str: string): (v: string)
    ensures DecodeValue(v) == Some(str)
    ensures Base64.IsBase64(v)
    ensures |v| == 4 * ((|Utf8.Encode(str)| + 2) / 3)
    ensures forall i :: 0 <= i < |v| ==> Base64.IsAlphabetChar(v[i]) || v[i] == Base64.Pad
  {
    var bytes := Utf8.Encode(str);
    Base64.DecodeEncode(bytes);
    Base64.EncodedIsBase64(bytes);
    Utf8.DecodeEncode(str);
    Base64.Encode(bytes)
  }

  /** The profile value `getValueFromTextures` stores for `url`. */
  function TextureValue(url: string): (v: string)
    ensures DecodeValue(v) == Some("{\"textures\":{\"SKIN\":{\"url\":\"" + url + "\"}}}")
    ensures |v| > 0
  {
    EncodeBase64(Descriptor(url))
  }

  /** For an ASCII URL the stored value has 4 * ceil((32 + |url|) / 3)
      characters: one byte per descriptor character. */
  lemma TextureValueLength(url: string)
    requires forall i :: 0 <= i < |url| ==> url[i] as int < 0x80
    ensures |TextureValue(url)| == 4 * ((|url| + 32 + 2) / 3)
  {
    var d := Descriptor(url);
    assert |d| == |url| + 32;
    forall i | 0 <= i < |d| ensures d[i] as int < 0x80 {
      if i < 28 {
        assert d[i] == ValueProperty[i];
      } else if i < 28 + |url| {
        assert d[i] == url[i - 28];
      } else {
        assert d[i] == ValueClose[i - 28 - |url|];
      }
    }
  }

  /** Different URLs give different stored values: the URL is carried
      through unaltered. */
  lemma TextureValueInjective(u1: string, u2: string)
    ensures TextureValue(u1) == TextureValue(u2) ==> u1 == u2
  {
    if TextureValue(u1) == TextureValue(u2) {
      var d1, d2 := Descriptor(u1), Descriptor(u2);
      assert d1 == d2;
      assert u1 == d1[28..|d1| - 4];
      assert u2 == d2[28..|d2| - 4];
    }
  }

  // -----------------------------------------------------------------------
  // Item metadata, game profiles, and the operations on them

  /** A profile id; `UUID.randomUUID()` is supplied by the caller. */
  type Uuid = nat

  /** A game profile: its id, the owning player's name (`null` in the
      profiles built here), and its property multimap, each key holding the
      values of its properties in insertion order. */
  datatype Profile = Profile(id: Uuid, name: Option<string>, properties: map<string, seq<string>>) {
    /** `getProperties().get(key)`: empty when the key is absent. */
    function Get(key: string): seq<string> {
      if key in properties then properties[key] else []
    }
  }

  /** A skull's metadata: the game profile held in its `profile` field.  The
      owning player is read from this profile, so assigning an owner and
      writing a texture profile both replace it. */
  datatype SkullMeta = SkullMeta(profile: Option<Profile>)

  /** Item metadata as `applySkin` receives it: a skull's, or another
      item's. */
  datatype ItemMeta = Skull(meta: SkullMeta) | OtherItem

  /** `ItemBuilder.SkullTexture`: a texture value and the profile id. */
  datatype SkullTexture = SkullTexture(value: string, id: Uuid)

  /** `IllegalArgumentException` from `Validate.notEmpty`, and the
      `ClassCastException` of casting non-skull metadata to `SkullMeta`. */
  datatype Error = IllegalArgument(message: string) | ClassCast

  predicate NonEmpty(value: string) {
    value != []
  }

  /** The texture values of a head's profile. */
  function TextureValues(head: SkullMeta): seq<string>
    requires head.profile.Some?
  {
    head.profile.value.Get("textures")
  }

  /** `getSkinValue`: the first non-empty "textures" value of the head's
      profile, with the profile id; `None` when there is no profile or no
      non-empty value. */
  function GetSkinValue(head: SkullMeta): (r: Option<SkullTexture>)
    ensures r.None? <==>
      head.profile.None? || forall j :: 0 <= j < |TextureValues(head)| ==> TextureValues(head)[j] == []
    ensures r.Some? ==>
      && r.value.id == head.profile.value.id
      && exists i :: 0 <= i < |TextureValues(head)|
           && TextureValues(head)[i] == r.value.value && r.value.value != []
           && forall j :: 0 <= j < i ==> TextureValues(head)[j] == []
  {
    match head.profile
    case None => None
    case Some(profile) =>
      var values := profile.Get("textures");
      assert values == TextureValues(head);
      if |values| == 0 then None
      else
        match Seqs.FirstElement(values, NonEmpty)
        case None => None
        case Some(v) =>
          assert NonEmpty(v);
          Some(SkullTexture(v, profile.id))
  }

  /** `getSkullByValue`: an empty value is rejected before any profile is
      built; otherwise a fresh profile with id `id`, no owner name, and
      `value` as its only "textures" property replaces the head's profile,
      so any previous owner is gone.  When the
      profile field could not be reached at start-up (`profileWritable` is
      false) the write fails and is swallowed, leaving the head unchanged. */
  function SkullByValue(head: SkullMeta, value: string, profileWritable: bool, id: Uuid): (r: Result<SkullMeta, Error>)
    ensures r.Failure? <==> value == []
    ensures r.Success? && !profileWritable ==> r.value == head
    ensures r.Success? && profileWritable ==>
      && r.value.profile.Some? && r.value.profile.value.name.None?
      && GetSkinValue(r.value) == Some(SkullTexture(value, id))
  {
    if value == [] then Failure(IllegalArgument("Skull value cannot be null or empty"))
    else if !profileWritable then Success(head)
    else
      var head' := SkullMeta(Some(Profile(id, None, map["textures" := [value]])));
      assert TextureValues(head') == [value];
      Success(head')
  }

  /** `getValueFromTextures`: store the encoded descriptor of a full URL. */
  function ValueFromTextures(head: SkullMeta, url: string, profileWritable: bool, id: Uuid): (r: Result<SkullMeta, Error>)
    ensures r.Success?
    ensures !profileWritable ==> r.value == head
    ensures profileWritable ==>
      && r.value.profile.Some? && r.value.profile.value.name.None?
      && GetSkinValue(r.value).Some?
      && GetSkinValue(r.value).value.id == id
      && DecodeValue(GetSkinValue(r.value).value.value) == Some(ValueProperty + url + ValueClose)
  {
    SkullByValue(head, TextureValue(url), profileWritable, id)
  }

  /** `getTexturesFromUrlValue`: a bare texture hash is appended to the
      texture base URL, with no other change. */
  function TexturesFromUrlValue(head: SkullMeta, suffix: string, profileWritable: bool, id: Uuid): (r: Result<SkullMeta, Error>)
    ensures r.Success?
    ensures !profileWritable ==> r.value == head
    ensures profileWritable ==>
      && GetSkinValue(r.value).Some?
      && DecodeValue(GetSkinValue(r.value).value.value) == Some(ValueProperty + Textures + suffix + ValueClose)
  {
    assert ValueProperty + Textures + suffix + ValueClose == ValueProperty + (Textures + suffix) + ValueClose;
    ValueFromTextures(head, Textures + suffix, profileWritable, id)
  }

  /** `applySkin(ItemMeta, String)`: the metadata is cast to `SkullMeta`
      first, which fails for any other item's metadata; then exactly one
      branch runs, chosen by `Classify`, and none of them throws.  A
      username hands the head to the engine's owner assignment, which
      installs the profile `owningProfile` gives for that name in place of
      the old one. */
  function ApplySkin(head: ItemMeta, identifier: string, owningProfile: string -> Profile, profileWritable: bool, id: Uuid)
    : (r: Result<SkullMeta, Error>)
    ensures r.Failure? <==> head.OtherItem?
    ensures r.Failure? ==> r.error == ClassCast
    ensures head.Skull? && UsernameRule(identifier) ==> r.value == SkullMeta(Some(owningProfile(identifier)))
    ensures head.Skull? && !UsernameRule(identifier) && !profileWritable ==> r.value == head.meta
    ensures head.Skull? && !UsernameRule(identifier) && profileWritable ==>
      r.value.profile.Some? && r.value.profile.value.name.None?
    ensures head.Skull? && MentionsTexturesHost(identifier) && profileWritable ==>
      && GetSkinValue(r.value).Some?
      && DecodeValue(GetSkinValue(r.value).value.value) == Some(ValueProperty + identifier + ValueClose)
    ensures head.Skull? && Classify(identifier) == ProfileValue && profileWritable ==>
      GetSkinValue(r.value) == Some(SkullTexture(identifier, id))
    ensures head.Skull? && Classify(identifier) == UrlSuffix && profileWritable ==>
      && GetSkinValue(r.value).Some?
      && DecodeValue(GetSkinValue(r.value).value.value) == Some(ValueProperty + Textures + identifier + ValueClose)
  {
    match head
    case OtherItem => Failure(ClassCast)
    case Skull(meta) =>
      match Classify(identifier)
      case Username => Success(SkullMeta(Some(owningProfile(identifier))))
      case TextureUrl => ValueFromTextures(meta, identifier, profileWritable, id)
      case ProfileValue => SkullByValue(meta, identifier, profileWritable, id)
      case UrlSuffix =>
        assert ValueProperty + Textures + identifier + ValueClose == ValueProperty + (Textures + identifier) + ValueClose;
        TexturesFromUrlValue(meta, identifier, profileWritable, id)
  }

  /** Applying the same identifier again, with a later profile id, gives
      the same head as applying it once with that id; metadata of another
      item fails the same way both times. */
  lemma ApplySkinIdempotent(head: ItemMeta, identifier: string, owningProfile: string -> Profile, profileWritable: bool, id1: Uuid, id2: Uuid)
    ensures var once := ApplySkin(head, identifier, owningProfile, profileWritable, id1);
      if once.Success?
      then ApplySkin(Skull(once.value), identifier, owningProfile, profileWritable, id2)
           == ApplySkin(head, identifier, owningProfile, profileWritable, id2)
      else ApplySkin(head, identifier, owningProfile, profileWritable, id2) == once
  {
  }

  // -----------------------------------------------------------------------
  // Worked identifiers

  lemma ClassifyNotch()
    ensures Classify("Notch") == Username
  {
    assert UsernameRule("Notch");
  }

  /** A short alphanumeric texture hash is taken for a username. */
  lemma ClassifyShortHash()
    ensures Classify("abc123") == Username
  {
    assert UsernameRule("abc123");
  }

  /** The empty identifier is not rejected: it falls through to the suffix
      branch. */
  lemma ClassifyEmpty()
    ensures Classify("") == UrlSuffix
  {
  }

  lemma ClassifyPunctuated()
    ensures Classify("abcXYZ123!!!") == UrlSuffix
  {
    assert !UsernameRule("abcXYZ123!!!") by { assert "abcXYZ123!!!"[9] == '!'; }
  }

  lemma ClassifyFullUrl()
    ensures Classify("https://textures.minecraft.net/texture/abc123") == TextureUrl
  {
    var url := "https://textures.minecraft.net/texture/abc123";
    assert url == "https://" + TexturesHost + "/texture/abc123";
    assert url[8..8 + |TexturesHost|] == TexturesHost;
    assert OccursAt(url, TexturesHost, 8);
  }
}
