/**
 * How a plugin's identity is written as a safe token (the plugin id, also
 * used as the frontend module name) and as a URL path under `hostedPlugin/`.
 */
module PluginProtocol {
  import opened Utf16Text

  datatype Option<T> = None | Some(value: T)

  /** The identity fields of a package.json object (the other fields of the
      manifest play no part here). */
  datatype PluginPackage = PluginPackage(name: Text, publisher: Text, version: Text)

  /** The identity fields of a plugin model built from a package.json. */
  datatype PluginModel = PluginModel(id: Text, name: Text, publisher: Text, version: Text)

  /** Either kind of record the id functions accept. */
  datatype PluginIdentity = FromPackage(pck: PluginPackage) | FromModel(model: PluginModel)
  {
    function Publisher(): Text {
      match this
      case FromPackage(p) => p.publisher
      case FromModel(m) => m.publisher
    }

    function Name(): Text {
      match this
      case FromPackage(p) => p.name
      case FromModel(m) => m.name
    }
  }

  /** Outside JavaScript's `\W`: an ASCII letter, an ASCII digit or `_`.
      Without the `u` flag the class is tested one code unit at a time. */
  predicate IsWordChar(c: CodeUnit) {
    ('0' as CodeUnit <= c <= '9' as CodeUnit)
    || ('A' as CodeUnit <= c <= 'Z' as CodeUnit)
    || ('a' as CodeUnit <= c <= 'z' as CodeUnit)
    || c == Underscore
  }

  predicate AllWordChars(s: Text) {
    forall i :: 0 <= i < |s| ==> IsWordChar(s[i])
  }

  /** What `replace(/\W/g, '_')` does to one code unit. */
  function Replace(c: CodeUnit): CodeUnit {
    if IsWordChar(c) then c else Underscore
  }

  /** `s.replace(/\W/g, '_')`: every non-word code unit becomes `_`. */
  function Sanitize(s: Text): (r: Text)
    ensures |r| == |s|
    ensures AllWordChars(r)
  {
    if s == [] then [] else [Replace(s[0])] + Sanitize(s[1..])
  }

  /** The text the id is derived from: `${publisher}_${name}`. */
  function Joined(plugin: PluginIdentity): Text {
    plugin.Publisher() + [Underscore] + plugin.Name()
  }

  /** `getPluginId`: one code unit of output per code unit of
      `${publisher}_${name}`, all of them word characters. */
  function GetPluginId(plugin: PluginIdentity): (r: Text)
    ensures |r| == |plugin.Publisher()| + 1 + |plugin.Name()|
    ensures AllWordChars(r)
  {
    Sanitize(plugin.Publisher() + [Underscore] + plugin.Name())
  }

  /** `buildFrontendModuleName`: the same computation as `getPluginId`. */
  function BuildFrontendModuleName(plugin: PluginIdentity): (r: Text)
    ensures r == GetPluginId(plugin)
  {
    Sanitize(plugin.Publisher() + [Underscore] + plugin.Name())
  }

  /** The code units of `hostedPlugin`. */
  const HostedPlugin: Text := [0x68, 0x6F, 0x73, 0x74, 0x65, 0x64, 0x50, 0x6C, 0x75, 0x67, 0x69, 0x6E]

  /** `PluginPackage.toPluginUrl`: `hostedPlugin/<id>/<encoded path>`.
      `encodeUriComponent` stands for the JavaScript built-in, which either
      returns the escaped text or throws a URIError (`None`). */
  function ToPluginUrl(pck: PluginPackage, relativePath: Text,
                       encodeUriComponent: Text -> Option<Text>): (r: Option<Text>)
    ensures r.Some? <==> encodeUriComponent(relativePath).Some?
    ensures r.Some? ==>
      var id := GetPluginId(FromPackage(pck));
      var encoded := encodeUriComponent(relativePath).value;
      |r.value| == |HostedPlugin| + 1 + |id| + 1 + |encoded|
      && r.value[..|HostedPlugin|] == HostedPlugin
      && r.value[|HostedPlugin| + 1 + |id| + 1..] == encoded
  {
    match encodeUriComponent(relativePath)
    case None => None
    case Some(encoded) =>
      Some(HostedPlugin + [Slash] + GetPluginId(FromPackage(pck)) + [Slash] + encoded)
  }

  // ---------------------------------------------------------------------
  // Properties of the replacement

  /** Position by position: a word character is kept, any other becomes `_`. */
  lemma {:induction false} SanitizeAt(s: Text)
    ensures forall i :: 0 <= i < |s| ==>
      Sanitize(s)[i] == (if IsWordChar(s[i]) then s[i] else Underscore)
    decreases |s|
  {
    if s != [] {
      SanitizeAt(s[1..]);
      forall i | 0 <= i < |s|
        ensures Sanitize(s)[i] == (if IsWordChar(s[i]) then s[i] else Underscore)
      {
        if i > 0 {
          assert Sanitize(s)[i] == Sanitize(s[1..])[i - 1];
          assert s[i] == s[1..][i - 1];
        }
      }
    }
  }

  /** The replacement works on each code unit alone, so it splits over a
      concatenation. */
  lemma {:induction false} SanitizeAppend(a: Text, b: Text)
    ensures Sanitize(a + b) == Sanitize(a) + Sanitize(b)
    decreases |a|
  {
    if a == [] {
      assert a + b == b;
    } else {
      SanitizeAppend(a[1..], b);
      assert (a + b)[0] == a[0];
      assert (a + b)[1..] == a[1..] + b;
    }
  }

  /** The texts the replacement leaves alone are exactly the word-only ones. */
  lemma {:induction false} SanitizeFixedPoint(s: Text)
    ensures Sanitize(s) == s <==> AllWordChars(s)
    decreases |s|
  {
    if s != [] {
      SanitizeFixedPoint(s[1..]);
      if AllWordChars(s) {
        assert AllWordChars(s[1..]) by {
          forall i | 0 <= i < |s[1..]| ensures IsWordChar(s[1..][i]) {
            assert s[1..][i] == s[i + 1];
          }
        }
        assert [s[0]] + s[1..] == s;
      }
      if Sanitize(s) == s {
        assert Sanitize(s)[1..] == Sanitize(s[1..]);
      }
    }
  }

  /** Sanitizing an already sanitized text changes nothing. */
  lemma {:induction false} SanitizeIdempotent(s: Text)
    ensures Sanitize(Sanitize(s)) == Sanitize(s)
  {
    SanitizeFixedPoint(Sanitize(s));
  }

  // ---------------------------------------------------------------------
  // Properties of the plugin id

  /** Position by position over `${publisher}_${name}`: word characters are
      kept, every other code unit becomes `_`, and the separator sits at
      index |publisher|. */
  lemma PluginIdAt(plugin: PluginIdentity)
    ensures var id := GetPluginId(plugin);
      && |id| == |Joined(plugin)|
      && id[|plugin.Publisher()|] == Underscore
      && forall i :: 0 <= i < |id| ==>
           id[i] == (if IsWordChar(Joined(plugin)[i]) then Joined(plugin)[i] else Underscore)
  {
    var s := Joined(plugin);
    SanitizeAt(s);
    assert s[|plugin.Publisher()|] == Underscore;
  }

  /** The id is the sanitized publisher, `_`, and the sanitized name. */
  lemma PluginIdParts(plugin: PluginIdentity)
    ensures GetPluginId(plugin)
         == Sanitize(plugin.Publisher()) + [Underscore] + Sanitize(plugin.Name())
  {
    var p, n := plugin.Publisher(), plugin.Name();
    SanitizeAppend(p + [Underscore], n);
    SanitizeAppend(p, [Underscore]);
    assert Sanitize([Underscore]) == [Underscore];
  }

  /** Sanitizing an id again gives back the id. */
  lemma PluginIdIdempotent(plugin: PluginIdentity)
    ensures Sanitize(GetPluginId(plugin)) == GetPluginId(plugin)
  {
    SanitizeIdempotent(Joined(plugin));
  }

  /** Only publisher and name matter: the version, the record kind and a
      model's own `id` field are ignored. */
  lemma PluginIdDependsOnlyOnPublisherAndName(a: PluginIdentity, b: PluginIdentity)
    requires a.Publisher() == b.Publisher() && a.Name() == b.Name()
    ensures GetPluginId(a) == GetPluginId(b)
  {
  }

  /** Replacing the publisher and name by their sanitized forms gives the
      same id, so every plugin whose publisher or name has a non-word
      character shares its id with another one. */
  lemma PluginIdNotInjective(plugin: PluginIdentity)
    ensures var clean := FromPackage(PluginPackage(Sanitize(plugin.Name()),
                                                   Sanitize(plugin.Publisher()), []));
      GetPluginId(clean) == GetPluginId(plugin)
      && (clean.Publisher() == plugin.Publisher() && clean.Name() == plugin.Name()
          <==> AllWordChars(plugin.Publisher()) && AllWordChars(plugin.Name()))
  {
    var clean := FromPackage(PluginPackage(Sanitize(plugin.Name()),
                                           Sanitize(plugin.Publisher()), []));
    PluginIdParts(plugin);
    PluginIdParts(clean);
    SanitizeIdempotent(plugin.Publisher());
    SanitizeIdempotent(plugin.Name());
    SanitizeFixedPoint(plugin.Publisher());
    SanitizeFixedPoint(plugin.Name());
  }

  // ---------------------------------------------------------------------
  // Properties of the plugin URL

  /** With an encoder that escapes `/`, the URL has exactly three segments:
      `hostedPlugin`, the plugin id and the encoded path; in particular the
      text between the first and the second `/` is the plugin id. */
  lemma PluginUrlSegments(pck: PluginPackage, relativePath: Text,
                          encodeUriComponent: Text -> Option<Text>)
    requires encodeUriComponent(relativePath).Some? ==>
               Slash !in encodeUriComponent(relativePath).value
    ensures var r := ToPluginUrl(pck, relativePath, encodeUriComponent);
      r.Some? ==>
        Split(r.value, Slash)
          == [HostedPlugin, GetPluginId(FromPackage(pck)), encodeUriComponent(relativePath).value]
  {
    var r := ToPluginUrl(pck, relativePath, encodeUriComponent);
    if r.Some? {
      var id := GetPluginId(FromPackage(pck));
      SplitThree(HostedPlugin, id, encodeUriComponent(relativePath).value, Slash);
    }
  }

  // ---------------------------------------------------------------------
  // Worked examples

  /** The code units of the text in the first example. */
  lemma DotAndSpaceText()
    ensures Utf16("ab.c") == [0x61, 0x62, 0x2E, 0x63]
    ensures Utf16("x y") == [0x78, 0x20, 0x79]
    ensures Utf16("ab_c_x_y") == [0x61, 0x62, 0x5F, 0x63, 0x5F, 0x78, 0x5F, 0x79]
  {
  }

  /** Publisher `ab.c` and name `x y` give `ab_c_x_y`. */
  lemma ExampleDotAndSpace(plugin: PluginIdentity)
    requires plugin.Publisher() == Utf16("ab.c") && plugin.Name() == Utf16("x y")
    ensures GetPluginId(plugin) == Utf16("ab_c_x_y")
  {
    DotAndSpaceText();
    PluginIdParts(plugin);
    assert Sanitize([0x61, 0x62, 0x2E, 0x63]) == [0x61, 0x62, 0x5F, 0x63];
    assert Sanitize([0x78, 0x20, 0x79]) == [0x78, 0x5F, 0x79];
  }

  /** The code units of the text in the second example. */
  lemma PlainText()
    ensures Utf16("acme") == [0x61, 0x63, 0x6D, 0x65]
    ensures Utf16("foo") == [0x66, 0x6F, 0x6F]
    ensures Utf16("acme_foo") == [0x61, 0x63, 0x6D, 0x65, 0x5F, 0x66, 0x6F, 0x6F]
  {
  }

  /** Publisher `acme` and name `foo` give `acme_foo`. */
  lemma ExamplePlain(plugin: PluginIdentity)
    requires plugin.Publisher() == Utf16("acme") && plugin.Name() == Utf16("foo")
    ensures GetPluginId(plugin) == Utf16("acme_foo")
  {
    PlainText();
    PluginIdParts(plugin);
    assert Sanitize([0x61, 0x63, 0x6D, 0x65]) == [0x61, 0x63, 0x6D, 0x65];
    assert Sanitize([0x66, 0x6F, 0x6F]) == [0x66, 0x6F, 0x6F];
  }

  /** An astral character is two code units, so it becomes two `_`:
      publisher `a` and name U+1F600 give `a___`. */
  lemma ExampleAstral(plugin: PluginIdentity)
    requires plugin.Publisher() == Utf16("a") && plugin.Name() == Utf16("\U{1F600}")
    ensures GetPluginId(plugin) == Utf16("a___")
  {
    assert Utf16("a") == [0x61];
    assert Utf16("\U{1F600}") == [0xD83D, 0xDE00];
    PluginIdParts(plugin);
    assert Sanitize([0x61]) == [0x61];
    assert Sanitize([0xD83D, 0xDE00]) == [0x5F, 0x5F];
    assert Utf16("a___") == [0x61, 0x5F, 0x5F, 0x5F];
  }

  /** The code units of the text in the collision example. */
  lemma CollisionText()
    ensures Utf16("a.b") == [0x61, 0x2E, 0x62]
    ensures Utf16("a_b") == [0x61, 0x5F, 0x62]
    ensures Utf16("b_c") == [0x62, 0x5F, 0x63]
    ensures Utf16("a") == [0x61] && Utf16("c") == [0x63]
    ensures Utf16("a_b_c") == [0x61, 0x5F, 0x62, 0x5F, 0x63]
  {
  }

  /** `a.b`/`c`, `a_b`/`c` and `a`/`b_c` all have the id `a_b_c`. */
  lemma ExampleCollisions(p: PluginIdentity, q: PluginIdentity, r: PluginIdentity)
    requires p.Publisher() == Utf16("a.b") && p.Name() == Utf16("c")
    requires q.Publisher() == Utf16("a_b") && q.Name() == Utf16("c")
    requires r.Publisher() == Utf16("a") && r.Name() == Utf16("b_c")
    ensures GetPluginId(p) == GetPluginId(q) == GetPluginId(r) == Utf16("a_b_c")
  {
    CollisionText();
    PluginIdParts(p);
    PluginIdParts(q);
    PluginIdParts(r);
    assert Sanitize([0x61, 0x2E, 0x62]) == [0x61, 0x5F, 0x62];
    assert Sanitize([0x61, 0x5F, 0x62]) == [0x61, 0x5F, 0x62];
    assert Sanitize([0x62, 0x5F, 0x63]) == [0x62, 0x5F, 0x63];
    assert Sanitize([0x61]) == [0x61];
    assert Sanitize([0x63]) == [0x63];
  }
}
