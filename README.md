# Plugin identity and plugin URLs

A model, in Dafny, of the executable part of the plugin protocol of the
plugin extension package: how a plugin's identity (its `publisher` and
`name` from package.json) is turned into a safe token, the plugin id, which
is also used as the frontend module name, and how a plugin-relative file
path becomes the URL path `hostedPlugin/<plugin id>/<encoded path>`.

JavaScript strings are sequences of UTF-16 code units, so text is modelled as
`seq<CodeUnit>` with `CodeUnit` a newtype over `0 .. 0xFFFF`
(`text.dfy`, module `Utf16Text`). The regular expression `/\W/g` has no `u`
flag, so it tests one code unit at a time: an astral character (a surrogate
pair) becomes two `_`. `Utf16` converts a Dafny string into code units
(astral characters as surrogate pairs) so that the worked examples can be
written with ordinary string literals.

`plugin_protocol.dfy` (module `PluginProtocol`) holds the records, the three
operations and their properties. The id functions accept a `PluginPackage`
or a `PluginModel`; the model has one datatype for each, keeping the
identity fields (`name`, `publisher`, `version`, and the model's own `id`),
and the union `PluginIdentity` of the two. `encodeURIComponent` is a
JavaScript built-in whose definition is not part of this model: `ToPluginUrl`
takes it as a function parameter that returns the escaped text or `None` for
the URIError the built-in throws. The one thing assumed about it, in the
requires of `PluginUrlSegments`, is that its output has no `/` (the built-in
escapes `/` as `%2F`).

The URL structure is stated against a reference `Split`/`Join` at a separator
code unit (the meaning of JavaScript's `split`), with the round trips
`JoinSplit` and `SplitJoin` proved about them.

## Model

| member | source | states |
|---|---|---|
| `PluginProtocol.Sanitize` | packages/plugin-ext/src/common/plugin-protocol.ts:603 | `replace(/\W/g, '_')` keeps the length and leaves only word characters `[A-Za-z0-9_]` |
| `PluginProtocol.SanitizeAt` | packages/plugin-ext/src/common/plugin-protocol.ts:603 | at every position a word character is kept unchanged and any other code unit becomes `_` |
| `PluginProtocol.SanitizeAppend` | packages/plugin-ext/src/common/plugin-protocol.ts:603 | the global replacement works unit by unit, so it distributes over concatenation |
| `PluginProtocol.SanitizeFixedPoint` | packages/plugin-ext/src/common/plugin-protocol.ts:603 | the replacement leaves a text unchanged if and only if every unit of it is a word character |
| `PluginProtocol.SanitizeIdempotent` | packages/plugin-ext/src/common/plugin-protocol.ts:603 | replacing again in an already replaced text changes nothing |
| `PluginProtocol.GetPluginId` | packages/plugin-ext/src/common/plugin-protocol.ts:602-604 | the id has length \|publisher\| + 1 + \|name\| and consists of word characters only |
| `PluginProtocol.PluginIdAt` | packages/plugin-ext/src/common/plugin-protocol.ts:602-604 | position by position over `${publisher}_${name}` word characters are kept and others become `_`; index \|publisher\| is always the `_` separator |
| `PluginProtocol.PluginIdParts` | packages/plugin-ext/src/common/plugin-protocol.ts:602-604 | the id is the sanitized publisher, then `_`, then the sanitized name |
| `PluginProtocol.PluginIdIdempotent` | packages/plugin-ext/src/common/plugin-protocol.ts:602-604 | sanitizing an id again returns the same id |
| `PluginProtocol.PluginIdDependsOnlyOnPublisherAndName` | packages/plugin-ext/src/common/plugin-protocol.ts:602-604 | two records (package or model, any version, any model `id` field) with equal publisher and name have the same id |
| `PluginProtocol.PluginIdNotInjective` | packages/plugin-ext/src/common/plugin-protocol.ts:602-604 | the record with sanitized publisher and name has the same id, and it differs from the original exactly when publisher or name holds a non-word character |
| `PluginProtocol.BuildFrontendModuleName` | packages/plugin-ext/src/common/plugin-protocol.ts:606-608 | the frontend module name equals the plugin id for every input |
| `PluginProtocol.ToPluginUrl` | packages/plugin-ext/src/common/plugin-protocol.ts:59-61 | the URL exists exactly when encoding the relative path succeeds; it starts with `hostedPlugin`, ends with the encoded path, and its length is the sum of the parts and two separators |
| `PluginProtocol.PluginUrlSegments` | packages/plugin-ext/src/common/plugin-protocol.ts:59-61 | when the encoder's output has no `/`, splitting the URL at `/` gives exactly `hostedPlugin`, the plugin id and the encoded path, so the text between the first and second `/` is the id |
| `PluginProtocol.ExampleDotAndSpace` | packages/plugin-ext/src/common/plugin-protocol.ts:602-604 | publisher `ab.c` and name `x y` give `ab_c_x_y` |
| `PluginProtocol.ExamplePlain` | packages/plugin-ext/src/common/plugin-protocol.ts:602-604 | publisher `acme` and name `foo` give `acme_foo` |
| `PluginProtocol.ExampleAstral` | packages/plugin-ext/src/common/plugin-protocol.ts:602-604 | an astral character in the name (two code units) becomes two `_`: `a` and U+1F600 give `a___` |
| `PluginProtocol.ExampleCollisions` | packages/plugin-ext/src/common/plugin-protocol.ts:602-604 | `a.b`/`c`, `a_b`/`c` and `a`/`b_c` all give the id `a_b_c` |

## Left out

- The deployment pipeline interfaces (resolvers, file and directory handlers, deployer, deployer entries, deployment handler): declared in plugin-protocol.ts without implementations, so there is no behaviour to model.
- The plugin scanner interface, the RPC surface (hosted plugin server and client, server plugin runner, plugin server), the storage kinds and the environment hook: interfaces and Promise-based plumbing without bodies in this file.
- The contribution data shapes (languages, grammars, debuggers, menus, keybindings, views and the rest): plain type declarations with no logic.
- The manifest fields other than `name`, `publisher` and `version` (and a model's `id`): they play no part in the modelled operations.
- `encodeURIComponent`: a JavaScript built-in whose definition is not part of this model; it is a parameter of `ToPluginUrl`, and only its slash-free output is assumed, in `PluginUrlSegments`.
- `undefined` publisher or name: the TypeScript types make both strings, so the text `undefined` that a template string would produce is not modelled.
