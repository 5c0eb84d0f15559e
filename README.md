# Browser-extension adapter: content security policy and manifest

A model of the part of `sveltekit-adapter-browser-extension` that computes
something: the content-security-policy builder and the version-2 extension
manifest that embeds it. After the framework has prerendered the site, the
adapter loads the entry page `index.html`, finds every `<script
type="module">` element and hashes the text of each one. It then writes a
`manifest.json` whose `content_security_policy` lists those hashes:

```
script-src 'self' 'sha256-<digest 1>' 'sha256-<digest 2>' ...; object-src 'self'
```

Each `'sha256-<digest>'` is a hash source in the sense of Content Security
Policy Level 3, section 2.3.1 (source lists). The digest is SHA-256 (FIPS
180-4) of the script text, written in base64 (RFC 4648, section 4).

Files:

- `wrappers.dfy`: `Option` and `Result`.
- `text.dfy` (module `Text`): `Join` behaves like JavaScript's
  `Array.prototype.join` with a one-character separator. `Split`, like
  `String.prototype.split`, is its partner. Join undoes Split on every
  string; Split undoes Join on a non-empty list of parts none of which
  contains the separator.
- `csp.dfy` (module `Csp`): the entry page as a sequence of script
  elements, the hash function, the policy builder `GenerateCsp`, and
  `ParsePolicy`, which reads a policy back into its digest list. The
  lemmas relate the two.
- `manifest.dfy` (module `Manifest`): the manifest record and
  `GenerateManifest`.

Modelling decisions:

- **The entry page.** The page is already parsed. It is a sequence of
  `ScriptElement` values in document order. Each value has an optional
  `type` attribute and the text of each child node. Only elements whose
  `type` is exactly `"module"` count.
- **The hash.** SHA-256 followed by base64 is a function parameter of
  type `Digest = string -> Base64Text`. Its results are strings over the
  base64 alphabet and its pad `=`. `Csp.HashScript` applies it. That
  alphabet property is all the model assumes about the hash, and it is
  what lets a policy be split back into its digests.
- **A module script with no child node.** The source reads
  `children[0].data` of such a script and throws a `TypeError`. In the
  model this is the result `Failure(ModuleScriptWithoutText(k))`, where
  `k` is the position of the first such script among the module scripts.
  The source maps over the scripts in order, so the first one is where it
  throws. An empty `<script type="module"></script>` is this case, because
  the parser gives it no text node.
- **No module scripts.** The policy is then
  `script-src 'self' ; object-src 'self'`, with a space before the `;`.
  The template literal does this, and the model keeps it.
- **The manifest.** The model stops at a record. It fails exactly when
  the policy fails, with the same error.

## Model

| member | source | states |
|---|---|---|
| `Csp.HashScript` | adapter-browser-extension.mjs:21-24 | the digest of a script text is base64 text, so it contains neither a space nor a single quote |
| `Csp.ModuleScripts` | adapter-browser-extension.mjs:28 | the selected scripts are exactly the document's scripts whose type is "module"; the result is empty exactly when the document has none |
| `Csp.ModuleScriptsAppend` | adapter-browser-extension.mjs:28 | selection keeps document order: the module scripts of `a + b` are those of `a` followed by those of `b` |
| `Csp.HashFirstChildren` | adapter-browser-extension.mjs:29-30 | succeeds exactly when every selected script has a child node; then the i-th digest is the hash of the i-th script's first child text, one per script; otherwise it fails at the first script without a child, and every earlier script has one |
| `Csp.Tokens` | adapter-browser-extension.mjs:31-32 | a token made from base64 text holds no space, the character the tokens are joined with, and reads back as the digest it wraps |
| `Csp.RenderPolicy` | adapter-browser-extension.mjs:32-33 | every rendered policy begins with `script-src 'self' ` and ends with `; object-src 'self'` |
| `Csp.GenerateCsp` | adapter-browser-extension.mjs:26-34 | succeeds exactly when every module script of the document has a child node; a success has the template's fixed head and tail; a failure names the first module script without a child node |
| `Csp.GenerateCspClosedForm` | adapter-browser-extension.mjs:26-34 | when every module script has a child node, the policy is exactly the rendering of the list of hashes of the module scripts' first child texts, in document order |
| `Csp.ParseToken` | adapter-browser-extension.mjs:31 | a token is accepted only if it is `'sha256-` + base64 text + `'`, and the text it yields rebuilds that token |
| `Text.SplitJoin` | adapter-browser-extension.mjs:32 | splitting on the separator recovers a non-empty list of joined parts when none of them contains the separator |
| `Text.JoinSplit` | adapter-browser-extension.mjs:32 | joining the pieces of a split gives back the original string |
| `Csp.ParseRender` | adapter-browser-extension.mjs:31-33 | splitting a rendered policy on spaces and unwrapping each token recovers the digest list, in order, including the empty list |
| `Csp.RenderParse` | adapter-browser-extension.mjs:31-33 | a string that reads back as a digest list is exactly the rendering of that list, and every digest in it is base64 |
| `Csp.RenderInjective` | adapter-browser-extension.mjs:31-33 | different digest lists never give the same policy string |
| `Csp.CspListsModuleHashes` | adapter-browser-extension.mjs:28-33 | a successful policy lists as many hash sources as there are module scripts; the i-th is the hash of the i-th module script's first child text |
| `Csp.SameTextSameHash` | adapter-browser-extension.mjs:21-29 | two module scripts with the same first child text get the same hash source, at any positions |
| `Csp.EmptyPolicyIffNoModuleScripts` | adapter-browser-extension.mjs:28-33 | the result is `script-src 'self' ; object-src 'self'`, with the space before `;`, if and only if the document has no module script |
| `Csp.NonModuleScriptIgnored` | adapter-browser-extension.mjs:28-31 | inserting a script whose type is not "module" anywhere in the document leaves the result unchanged |
| `Csp.FirstTextsDetermineHashes` | adapter-browser-extension.mjs:29-30 | scripts whose first child texts agree pairwise, or that both lack one, give the same digests or the same failure; later child nodes are ignored |
| `Csp.FirstTextsDeterminePolicy` | adapter-browser-extension.mjs:26-34 | the policy, or the failure, depends only on the sequence of module scripts' first child texts; other scripts, attributes and child nodes do not affect it |
| `Manifest.GenerateManifest` | adapter-browser-extension.mjs:8-19 | fails exactly when the policy fails, with the same error; otherwise the policy is the result of `generate_csp`, `manifest_version` is 2, `name` is "TODO", `version` is "0.1", and `browser_action` has title "SvelteKit" and popup "index.html" |
| `Manifest.ManifestPolicyListsModuleHashes` | adapter-browser-extension.mjs:14 | the manifest's policy has the template's head and tail and lists the hash of each module script's first child text, in document order |

Both `Csp.GenerateCsp` and `Manifest.GenerateManifest` are functions.
Calling either twice on the same input therefore gives the same result.
Any two module scripts with the same text get the same token.

## Left out

- `adapt`, lines 39-57 of adapter-browser-extension.mjs, is left out. It
  is file-system I/O: `readFileSync` and `writeFileSync`. It also
  delegates to the framework: `rimraf`, `copy_static_files`,
  `copy_client_files` and the awaited `prerender`. The adapter
  options `pages`, `assets` and `fallback` are used only there. The
  adapter's constant `name` (line 37) is not modelled either.
- HTML parsing and the `script[type="module"]` selector engine are left
  out. They belong to the cheerio library. The model starts from the
  script elements, already extracted in document order. It compares the
  attribute value with `"module"` exactly, so any case-insensitive
  matching that the selector engine might apply is not modelled.
- SHA-256 and base64 encoding are left out. They belong to the sjcl
  library, including its UTF-8 encoding of the text before hashing. The
  hash is a parameter, and the model assumes only that its results are
  base64 text. The fixed 44-character length of a base64 SHA-256 digest
  is not modelled.
- Child nodes are modelled as text. In
  the source, `.data` of a non-text first child would be `undefined`;
  the HTML parser does not produce such children inside a `<script>`.
- `JSON.stringify` is not modelled: neither its byte-level serialization
  nor its key order. `Manifest.GenerateManifest` returns the record, not the
  JSON text.
- Manifest version 3, moving inline hydration scripts out to files, merging
  a `manifest.json` fragment from disk, and an `'unsafe-eval'` option are
  not in adapter-browser-extension.mjs. They belong to other versions of
  this adapter, and none of them is part of this model.
- example-app/svelte.config.js is not part of this model. It only
  configures the adapter.
