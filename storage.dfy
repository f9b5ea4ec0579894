/** The config slot of `src/app/services/storage.ts`: the S3 connection
    settings kept in one `localStorage` entry as base64 of the UTF-8 bytes of
    their JSON text.  `localStorage` is an object with a string map that
    `saveConfig` and `clearConfig` change in place and `loadConfig` reads. */
module Storage {
  import opened Wrappers
  import Utf8
  import Base64
  import Json

  /** The one `localStorage` key the add-in uses. */
  const StorageKey: string := "aws-s3-addin-config"

  /** The S3 connection settings; every field is an opaque string. */
  datatype S3Config = S3Config(accessKeyId: string, secretAccessKey: string,
                               bucketName: string, region: string)

  // ---------------------------------------------------------------------
  // encode / decode
  // ---------------------------------------------------------------------

  /** `encode`: `btoa(unescape(encodeURIComponent(data)))`, the base64 text
      of the UTF-8 bytes of `data`. */
  function Encode(data: string): string
  {
    Base64.Encode(Utf8.Encode(data))
  }

  /** `decode`: `decodeURIComponent(escape(atob(data)))`; `None` where
      `atob` or `decodeURIComponent` throws. */
  function Decode(data: string): Option<string>
  {
    var bytes :- Base64.Decode(data);
    Utf8.DecodeStrict(bytes)
  }

  /** `decode(encode(s)) == s` for every string (a Dafny string holds no
      unpaired surrogate, the one input `encodeURIComponent` rejects). */
  lemma DecodeEncode(s: string)
    ensures Decode(Encode(s)) == Some(s)
  {
    Base64.DecodeEncode(Utf8.Encode(s));
    Utf8.DecodeStrictEncode(s);
  }

  // ---------------------------------------------------------------------
  // The JSON text of a config
  // ---------------------------------------------------------------------

  /** `JSON.stringify(config)` for a config object whose keys were created
      in the order the settings form creates them. */
  function Stringify(c: S3Config): string
  {
    "{\"accessKeyId\":" + (Json.Quote(c.accessKeyId) +
    (",\"secretAccessKey\":" + (Json.Quote(c.secretAccessKey) +
    (",\"bucketName\":" + (Json.Quote(c.bucketName) +
    (",\"region\":" + (Json.Quote(c.region) + "}")))))))
  }

  /** The text after `lit`, when `t` starts with `lit`. */
  function Expect(lit: string, t: string): (r: Option<string>)
    ensures r.Some? <==> |lit| <= |t| && t[..|lit|] == lit
  {
    if |lit| <= |t| && t[..|lit|] == lit then Some(t[|lit|..]) else None
  }

  /** `JSON.parse(json) as S3Config` for texts of the shape `Stringify`
      writes; anything else is refused as a syntax error. */
  function ParseConfig(t: string): Option<S3Config>
  {
    var t1 :- Expect("{\"accessKeyId\":", t);
    var p1 :- Json.ParseString(t1);
    var t2 :- Expect(",\"secretAccessKey\":", p1.1);
    var p2 :- Json.ParseString(t2);
    var t3 :- Expect(",\"bucketName\":", p2.1);
    var p3 :- Json.ParseString(t3);
    var t4 :- Expect(",\"region\":", p3.1);
    var p4 :- Json.ParseString(t4);
    var t5 :- Expect("}", p4.1);
    if t5 == [] then Some(S3Config(p1.0, p2.0, p3.0, p4.0)) else None
  }

  lemma ExpectLiteral(lit: string, rest: string)
    ensures Expect(lit, lit + rest) == Some(rest)
  {
    assert (lit + rest)[..|lit|] == lit && (lit + rest)[|lit|..] == rest;
  }

  /** `JSON.parse(JSON.stringify(c))` is `c`. */
  lemma ParseStringify(c: S3Config)
    ensures ParseConfig(Stringify(c)) == Some(c)
  {
    var r4 := "}";
    var r3 := ",\"region\":" + (Json.Quote(c.region) + r4);
    var r2 := ",\"bucketName\":" + (Json.Quote(c.bucketName) + r3);
    var r1 := ",\"secretAccessKey\":" + (Json.Quote(c.secretAccessKey) + r2);
    ExpectLiteral("{\"accessKeyId\":", Json.Quote(c.accessKeyId) + r1);
    Json.ParseQuote(c.accessKeyId, r1);
    ExpectLiteral(",\"secretAccessKey\":", Json.Quote(c.secretAccessKey) + r2);
    Json.ParseQuote(c.secretAccessKey, r2);
    ExpectLiteral(",\"bucketName\":", Json.Quote(c.bucketName) + r3);
    Json.ParseQuote(c.bucketName, r3);
    ExpectLiteral(",\"region\":", Json.Quote(c.region) + r4);
    Json.ParseQuote(c.region, r4);
    ExpectLiteral("}", []);
    assert "}" + [] == "}";
  }

  // ---------------------------------------------------------------------
  // The slot
  // ---------------------------------------------------------------------

  /** What `localStorage.getItem(key)` returns for a store holding `items`. */
  function Lookup(items: map<string, string>, key: string): Option<string>
  {
    if key in items then Some(items[key]) else None
  }

  /** What `loadConfig` returns when the slot holds `cipher`: nothing for an
      absent or empty slot, and nothing (rather than an exception) when the
      text is not base64, its bytes are not UTF-8, or its JSON does not parse. */
  function Load(cipher: Option<string>): (r: Option<S3Config>)
    ensures cipher.None? || cipher == Some("") ==> r.None?
    ensures cipher.Some? && Decode(cipher.value).None? ==> r.None?
    ensures r.Some? ==> Decode(cipher.value).Some? && ParseConfig(Decode(cipher.value).value) == r
  {
    if cipher.None? || cipher.value == "" then None
    else
      var json :- Decode(cipher.value);
      ParseConfig(json)
  }

  /** A config once saved reads back unchanged. */
  lemma LoadSaved(c: S3Config)
    ensures Load(Some(Encode(Stringify(c)))) == Some(c)
  {
    var json := Stringify(c);
    var text := Encode(json);
    DecodeEncode(json);
    ParseStringify(c);
    assert json[0] == '{';
    Utf8EncodeNonEmpty(json);
    assert text != "";
    assert Load(Some(text)) == ParseConfig(json);
  }

  lemma Utf8EncodeNonEmpty(s: string)
    requires s != []
    ensures |Utf8.Encode(s)| > 0 && |Base64.Encode(Utf8.Encode(s))| > 0
  {
    assert Utf8.Encode(s) == Utf8.Encode(s[..|s| - 1]) + Utf8.EncodeScalar(s[|s| - 1]);
  }

  /** The browser's `window.localStorage`: a string-to-string map. */
  class LocalStorage {
    var items: map<string, string>

    constructor (initial: map<string, string>)
      ensures items == initial
    {
      items := initial;
    }

    method GetItem(key: string) returns (value: Option<string>)
      ensures value == Lookup(items, key)
    {
      value := if key in items then Some(items[key]) else None;
    }

    method SetItem(key: string, value: string)
      modifies this
      ensures items == old(items)[key := value]
    {
      items := items[key := value];
    }

    method RemoveItem(key: string)
      modifies this
      ensures items == old(items) - {key}
    {
      items := items - {key};
    }
  }

  /** `saveConfig`: writes the encoded JSON of `config` under the add-in's
      key and touches no other key. */
  method SaveConfig(store: LocalStorage, config: S3Config)
    modifies store
    ensures store.items == old(store.items)[StorageKey := Encode(Stringify(config))]
    ensures forall k :: k != StorageKey ==> Lookup(store.items, k) == Lookup(old(store.items), k)
    ensures Load(Lookup(store.items, StorageKey)) == Some(config)
  {
    var json := Stringify(config);
    var cipher := Encode(json);
    store.SetItem(StorageKey, cipher);
    LoadSaved(config);
  }

  /** `loadConfig`: reads the slot and decodes it. */
  method LoadConfig(store: LocalStorage) returns (config: Option<S3Config>)
    ensures config == Load(Lookup(store.items, StorageKey))
  {
    var cipher := store.GetItem(StorageKey);
    if cipher.None? || cipher.value == "" {
      return None;
    }
    var json := Decode(cipher.value);
    if json.None? {
      return None;
    }
    config := ParseConfig(json.value);
  }

  /** `clearConfig`: removes the add-in's key and no other; the slot then
      reads as empty. */
  method ClearConfig(store: LocalStorage)
    modifies store
    ensures store.items == old(store.items) - {StorageKey}
    ensures forall k :: k != StorageKey ==> Lookup(store.items, k) == Lookup(old(store.items), k)
    ensures Load(Lookup(store.items, StorageKey)).None?
  {
    store.RemoveItem(StorageKey);
  }
}
