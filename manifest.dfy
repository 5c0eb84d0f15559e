/**
 The manifest (version 2 of the browser-extension manifest format) that the
 adapter writes next to the built pages: a fixed record with the entry page's
 content security policy slotted in.
 */
module Manifest {
  import opened Wrappers
  import Csp

  datatype BrowserAction = BrowserAction(defaultTitle: string, defaultPopup: string)

  datatype Manifest = Manifest(
    browserAction: BrowserAction,
    contentSecurityPolicy: string,
    manifestVersion: int,
    name: string,
    version: string)

  const MANIFEST_VERSION := 2
  const DEFAULT_TITLE := "SvelteKit"
  const DEFAULT_POPUP := "index.html"
  const PLACEHOLDER_NAME := "TODO"
  const PLACEHOLDER_VERSION := "0.1"

  /**
   The manifest for an entry page given by its script elements; it fails
   exactly when the policy cannot be computed, with the same error.
   */
  function GenerateManifest(digest: Csp.Digest, doc: seq<Csp.ScriptElement>): (r: Result<Manifest, Csp.CspError>)
    ensures r.Success? <==> forall e :: e in doc && Csp.IsModuleScript(e) ==> |e.children| > 0
    ensures r.Failure? ==> Csp.GenerateCsp(digest, doc) == Failure(r.error)
    ensures r.Success? ==>
              && Csp.GenerateCsp(digest, doc) == Success(r.value.contentSecurityPolicy)
              && r.value.manifestVersion == 2
              && r.value.name == "TODO"
              && r.value.version == "0.1"
              && r.value.browserAction.defaultTitle == "SvelteKit"
              && r.value.browserAction.defaultPopup == "index.html"
  {
    match Csp.GenerateCsp(digest, doc)
    case Success(policy) =>
      Success(Manifest(
        BrowserAction(DEFAULT_TITLE, DEFAULT_POPUP),
        policy,
        MANIFEST_VERSION,
        PLACEHOLDER_NAME,
        PLACEHOLDER_VERSION))
    case Failure(e) => Failure(e)
  }

  /**
   The manifest's policy lists one hash source per module script of the
   entry page, in document order, and has the template's fixed head and tail.
   */
  lemma ManifestPolicyListsModuleHashes(digest: Csp.Digest, doc: seq<Csp.ScriptElement>)
    requires forall e :: e in doc && Csp.IsModuleScript(e) ==> |e.children| > 0
    ensures GenerateManifest(digest, doc).Success?
    ensures Csp.HasPolicyFrame(GenerateManifest(digest, doc).value.contentSecurityPolicy)
    ensures Csp.ParsePolicy(GenerateManifest(digest, doc).value.contentSecurityPolicy).Some?
    ensures |Csp.ParsePolicy(GenerateManifest(digest, doc).value.contentSecurityPolicy).value|
            == |Csp.ModuleScripts(doc)|
    ensures forall i :: 0 <= i < |Csp.ModuleScripts(doc)| ==>
              && |Csp.ModuleScripts(doc)[i].children| > 0
              && Csp.ParsePolicy(GenerateManifest(digest, doc).value.contentSecurityPolicy).value[i]
                 == Csp.HashScript(digest, Csp.ModuleScripts(doc)[i].children[0])
  {
    Csp.CspListsModuleHashes(digest, doc);
  }
}
