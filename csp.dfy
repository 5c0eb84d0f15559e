/**
 The content-security-policy builder of the browser-extension adapter.

 The entry page is given as the sequence of its `<script>` elements in
 document order; each has an optional `type` attribute and the text of its
 child nodes. The policy lists one `'sha256-<digest>'` hash source (the
 hash-source form of Content Security Policy Level 3, section 2.3.1) for
 every script whose type is exactly "module", where the digest is the
 base64 text (RFC 4648, section 4) of the SHA-256 hash of the script's first
 child text. SHA-256 and base64 are a library the adapter calls; here they
 are one function parameter whose results are base64 text.
 */
module Csp {
  import opened Wrappers
  import Text

  /** The characters of the base64 alphabet of RFC 4648, section 4, with its pad. */
  predicate IsBase64Char(c: char) {
    ('A' <= c <= 'Z') || ('a' <= c <= 'z') || ('0' <= c <= '9') || c == '+' || c == '/' || c == '='
  }

  predicate IsBase64(s: string) {
    forall i :: 0 <= i < |s| ==> IsBase64Char(s[i])
  }

  type Base64Text = s: string | IsBase64(s)

  /** SHA-256 of a script's text, encoded in base64. */
  type Digest = string -> Base64Text

  /** A `<script>` element: its `type` attribute, if any, and the text of each child node. */
  datatype ScriptElement = ScriptElement(typeAttr: Option<string>, children: seq<string>)

  /**
   A module script with no child node: the adapter reads the text of a
   first child that does not exist and fails. `index` is the script's
   position among the module scripts.
   */
  datatype CspError = ModuleScriptWithoutText(index: nat)

  const MODULE_TYPE := "module"
  const POLICY_PREFIX := "script-src 'self' "
  const POLICY_SUFFIX := "; object-src 'self'"
  const EMPTY_POLICY := "script-src 'self' ; object-src 'self'"
  const TOKEN_OPEN := "'sha256-"
  const TOKEN_CLOSE := "'"

  predicate IsModuleScript(e: ScriptElement) {
    e.typeAttr == Some(MODULE_TYPE)
  }

  /** The text of a script's first child node, if it has one. */
  function FirstText(e: ScriptElement): (r: Option<string>) {
    if |e.children| == 0 then None else Some(e.children[0])
  }

  /** The first child text of each module script, in document order. */
  function ModuleFirstTexts(doc: seq<ScriptElement>): (r: seq<Option<string>>)
  {
    var ms := ModuleScripts(doc);
    seq(|ms|, i requires 0 <= i < |ms| => FirstText(ms[i]))
  }

  /** True of the policy strings that carry the fixed head and tail of the template. */
  predicate HasPolicyFrame(p: string) {
    && |p| >= |POLICY_PREFIX| + |POLICY_SUFFIX|
    && p[..|POLICY_PREFIX|] == POLICY_PREFIX
    && p[|p| - |POLICY_SUFFIX|..] == POLICY_SUFFIX
  }

  /** The digest of one script text; base64 text never holds a space or a single quote. */
  function HashScript(digest: Digest, text: string): (r: string)
    ensures IsBase64(r)
    ensures ' ' !in r && '\'' !in r
  {
    var d := digest(text);
    assert forall i :: 0 <= i < |d| ==> d[i] != ' ' && d[i] != '\'' by {
      forall i | 0 <= i < |d| ensures d[i] != ' ' && d[i] != '\'' {
        assert IsBase64Char(d[i]);
      }
    }
    d
  }

  /** The module scripts of the document, in document order. */
  function ModuleScripts(doc: seq<ScriptElement>): (r: seq<ScriptElement>)
    ensures |r| <= |doc|
    ensures forall e :: e in r <==> e in doc && IsModuleScript(e)
    ensures r == [] <==> forall e :: e in doc ==> !IsModuleScript(e)
  {
    if |doc| == 0 then []
    else (if IsModuleScript(doc[0]) then [doc[0]] else []) + ModuleScripts(doc[1..])
  }

  /**
   The digest of each script's first child text, in order; the first script
   without a child node stops the whole computation.
   */
  function HashFirstChildren(digest: Digest, scripts: seq<ScriptElement>): (r: Result<seq<string>, CspError>)
    ensures r.Success? <==> forall i :: 0 <= i < |scripts| ==> |scripts[i].children| > 0
    ensures r.Success? ==> |r.value| == |scripts|
    ensures r.Success? ==> forall i :: 0 <= i < |scripts| ==>
              |scripts[i].children| > 0 && r.value[i] == HashScript(digest, scripts[i].children[0])
    ensures r.Failure? ==> r.error.index < |scripts| && |scripts[r.error.index].children| == 0
    ensures r.Failure? ==> forall i :: 0 <= i < r.error.index ==> |scripts[i].children| > 0
  {
    if |scripts| == 0 then Success([])
    else
      var last := scripts[|scripts| - 1];
      match HashFirstChildren(digest, scripts[..|scripts| - 1])
      case Failure(e) => Failure(e)
      case Success(hs) =>
        if |last.children| == 0 then Failure(ModuleScriptWithoutText(|scripts| - 1))
        else Success(hs + [HashScript(digest, last.children[0])])
  }

  /** The hash-source expression for one digest. */
  function Token(h: string): (r: string) {
    TOKEN_OPEN + h + TOKEN_CLOSE
  }

  /**
   One hash-source expression per digest, in order. A token wrapping base64
   text holds no space, the character the tokens are joined with, and reads
   back as the digest it wraps.
   */
  function Tokens(hs: seq<string>): (r: seq<string>)
    ensures forall i :: 0 <= i < |hs| && IsBase64(hs[i]) ==>
              i < |r| && ' ' !in r[i] && ParseToken(r[i]) == Some(hs[i])
  {
    var r := seq(|hs|, i requires 0 <= i < |hs| => Token(hs[i]));
    assert forall i :: 0 <= i < |hs| && IsBase64(hs[i]) ==> ParseToken(r[i]) == Some(hs[i]) by {
      forall i | 0 <= i < |hs| && IsBase64(hs[i]) ensures ParseToken(r[i]) == Some(hs[i]) {
        ParseTokenOfToken(hs[i]);
      }
    }
    r
  }

  /** The policy that whitelists the given digests, in the given order. */
  function RenderPolicy(hs: seq<string>): (p: string)
    ensures HasPolicyFrame(p)
  {
    var p := POLICY_PREFIX + Text.Join(Tokens(hs), ' ') + POLICY_SUFFIX;
    assert p[..|POLICY_PREFIX|] == POLICY_PREFIX;
    assert p[|p| - |POLICY_SUFFIX|..] == POLICY_SUFFIX;
    p
  }

  /**
   The policy for a document: every module script's digest as a hash source
   after `'self'`, or the first module script that has no child node.
   */
  function GenerateCsp(digest: Digest, doc: seq<ScriptElement>): (r: Result<string, CspError>)
    ensures r.Success? <==> forall e :: e in doc && IsModuleScript(e) ==> |e.children| > 0
    ensures r.Success? ==> HasPolicyFrame(r.value)
    ensures r.Failure? ==>
              && r.error.index < |ModuleScripts(doc)|
              && ModuleScripts(doc)[r.error.index].children == []
              && forall i :: 0 <= i < r.error.index ==> |ModuleScripts(doc)[i].children| > 0
  {
    var ms := ModuleScripts(doc);
    var hashed := HashFirstChildren(digest, ms);
    assert hashed.Success? <==> forall e :: e in doc && IsModuleScript(e) ==> |e.children| > 0 by {
      if !hashed.Success? {
        var k := hashed.error.index;
        assert ms[k] in ms;
      }
    }
    match hashed
    case Success(hs) => Success(RenderPolicy(hs))
    case Failure(e) => Failure(e)
  }

  // ---------------------------------------------------------------------------
  // Reading a policy back

  /** The digest inside one hash-source expression, if it is a well-formed one. */
  function ParseToken(t: string): (r: Option<string>)
    ensures r.Some? ==> IsBase64(r.value) && Token(r.value) == t
  {
    if |t| >= |TOKEN_OPEN| + |TOKEN_CLOSE| && t[..|TOKEN_OPEN|] == TOKEN_OPEN && t[|t| - 1] == '\''
       && IsBase64(t[|TOKEN_OPEN|..|t| - 1])
    then
      var h := t[|TOKEN_OPEN|..|t| - 1];
      assert Token(h) == t;
      Some(h)
    else None
  }

  function ParseTokens(ts: seq<string>): (r: Option<seq<string>>)
  {
    if |ts| == 0 then Some([])
    else
      match (ParseToken(ts[0]), ParseTokens(ts[1..]))
      case (Some(h), Some(hs)) => Some([h] + hs)
      case _ => None
  }

  /**
   The digests a policy string lists, in order, when it has exactly the shape
   this module produces; None otherwise.
   */
  function ParsePolicy(p: string): (r: Option<seq<string>>)
  {
    if !HasPolicyFrame(p) then None
    else
      var middle := p[|POLICY_PREFIX|..|p| - |POLICY_SUFFIX|];
      if middle == "" then Some([]) else ParseTokens(Text.Split(middle, ' '))
  }

  // ---------------------------------------------------------------------------
  // Properties

  lemma ParseTokenOfToken(h: string)
    requires IsBase64(h)
    ensures ParseToken(Token(h)) == Some(h)
  {
  }

  lemma {:induction false} ParseTokensOfTokens(hs: seq<string>)
    requires forall i :: 0 <= i < |hs| ==> IsBase64(hs[i])
    ensures ParseTokens(Tokens(hs)) == Some(hs)
    decreases |hs|
  {
    if |hs| > 0 {
      ParseTokenOfToken(hs[0]);
      assert Tokens(hs)[1..] == Tokens(hs[1..]);
      ParseTokensOfTokens(hs[1..]);
      assert [hs[0]] + hs[1..] == hs;
    }
  }

  lemma {:induction false} TokensOfParseTokens(ts: seq<string>, hs: seq<string>)
    requires ParseTokens(ts) == Some(hs)
    ensures Tokens(hs) == ts
    ensures forall i :: 0 <= i < |hs| ==> IsBase64(hs[i])
    decreases |ts|
  {
    if |ts| > 0 {
      var h := ParseToken(ts[0]).value;
      var rest := ParseTokens(ts[1..]).value;
      TokensOfParseTokens(ts[1..], rest);
      assert hs == [h] + rest;
      assert Tokens(hs) == [Token(h)] + Tokens(rest);
      assert ts == [ts[0]] + ts[1..];
    }
  }

  /** Reading back a rendered policy, by splitting on spaces and unwrapping each token, yields the digests. */
  lemma ParseRender(hs: seq<string>)
    requires forall i :: 0 <= i < |hs| ==> IsBase64(hs[i])
    ensures ParsePolicy(RenderPolicy(hs)) == Some(hs)
  {
    var joined := Text.Join(Tokens(hs), ' ');
    var p := RenderPolicy(hs);
    assert p == POLICY_PREFIX + joined + POLICY_SUFFIX;
    assert p[|POLICY_PREFIX|..|p| - |POLICY_SUFFIX|] == joined;
    if |hs| > 0 {
      Text.SplitJoin(Tokens(hs), ' ');
      ParseTokensOfTokens(hs);
      assert Text.Split(joined, ' ')[0] == Token(hs[0]);
      assert joined != "";
    }
  }

  /** Every string that reads back as a list of digests is the rendering of that list. */
  lemma RenderParse(p: string, hs: seq<string>)
    requires ParsePolicy(p) == Some(hs)
    ensures forall i :: 0 <= i < |hs| ==> IsBase64(hs[i])
    ensures p == RenderPolicy(hs)
  {
    var middle := p[|POLICY_PREFIX|..|p| - |POLICY_SUFFIX|];
    assert p == p[..|POLICY_PREFIX|] + middle + p[|p| - |POLICY_SUFFIX|..];
    if middle == "" {
      assert hs == [];
    } else {
      TokensOfParseTokens(Text.Split(middle, ' '), hs);
      Text.JoinSplit(middle, ' ');
    }
  }

  /** Distinct digest lists give distinct policies. */
  lemma RenderInjective(hs1: seq<string>, hs2: seq<string>)
    requires forall i :: 0 <= i < |hs1| ==> IsBase64(hs1[i])
    requires forall i :: 0 <= i < |hs2| ==> IsBase64(hs2[i])
    requires RenderPolicy(hs1) == RenderPolicy(hs2)
    ensures hs1 == hs2
  {
    ParseRender(hs1);
    ParseRender(hs2);
  }

  /**
   A successful policy lists exactly one hash source per module script, in
   document order, each the digest of that script's first child text.
   */
  lemma CspListsModuleHashes(digest: Digest, doc: seq<ScriptElement>)
    requires forall e :: e in doc && IsModuleScript(e) ==> |e.children| > 0
    ensures GenerateCsp(digest, doc).Success?
    ensures ParsePolicy(GenerateCsp(digest, doc).value).Some?
    ensures |ParsePolicy(GenerateCsp(digest, doc).value).value| == |ModuleScripts(doc)|
    ensures forall i :: 0 <= i < |ModuleScripts(doc)| ==>
              && |ModuleScripts(doc)[i].children| > 0
              && ParsePolicy(GenerateCsp(digest, doc).value).value[i]
                 == HashScript(digest, ModuleScripts(doc)[i].children[0])
  {
    var hs := HashFirstChildren(digest, ModuleScripts(doc)).value;
    ParseRender(hs);
  }

  /**
   When every module script has a child node, the policy is exactly the
   rendering of the digests of the module scripts' first child texts, in
   document order.
   */
  lemma GenerateCspClosedForm(digest: Digest, doc: seq<ScriptElement>)
    requires forall e :: e in doc && IsModuleScript(e) ==> |e.children| > 0
    ensures var ms := ModuleScripts(doc);
            && (forall i :: 0 <= i < |ms| ==> |ms[i].children| > 0)
            && GenerateCsp(digest, doc)
               == Success(RenderPolicy(seq(|ms|, i requires 0 <= i < |ms| && |ms[i].children| > 0 =>
                                                HashScript(digest, ms[i].children[0]))))
  {
    var ms := ModuleScripts(doc);
    assert forall i :: 0 <= i < |ms| ==> ms[i] in ms;
    var hashed := HashFirstChildren(digest, ms);
    var hs := seq(|ms|, i requires 0 <= i < |ms| && |ms[i].children| > 0 => HashScript(digest, ms[i].children[0]));
    assert hashed.value == hs;
    assert GenerateCsp(digest, doc) == Success(RenderPolicy(hashed.value));
  }

  /** Two module scripts with the same first child text get the same hash source, wherever they stand. */
  lemma SameTextSameHash(digest: Digest, doc: seq<ScriptElement>, i: nat, j: nat)
    requires forall e :: e in doc && IsModuleScript(e) ==> |e.children| > 0
    requires i < |ModuleScripts(doc)| && j < |ModuleScripts(doc)|
    requires FirstText(ModuleScripts(doc)[i]) == FirstText(ModuleScripts(doc)[j])
    ensures GenerateCsp(digest, doc).Success?
    ensures ParsePolicy(GenerateCsp(digest, doc).value).Some?
    ensures |ParsePolicy(GenerateCsp(digest, doc).value).value| == |ModuleScripts(doc)|
    ensures ParsePolicy(GenerateCsp(digest, doc).value).value[i]
            == ParsePolicy(GenerateCsp(digest, doc).value).value[j]
  {
    CspListsModuleHashes(digest, doc);
  }

  /**
   The policy is `script-src 'self' ; object-src 'self'`, with the space
   before the semicolon, exactly when the document has no module script.
   */
  lemma EmptyPolicyIffNoModuleScripts(digest: Digest, doc: seq<ScriptElement>)
    ensures GenerateCsp(digest, doc) == Success(EMPTY_POLICY)
            <==> forall e :: e in doc ==> !IsModuleScript(e)
  {
    var ms := ModuleScripts(doc);
    assert RenderPolicy([]) == EMPTY_POLICY;
    if GenerateCsp(digest, doc) == Success(EMPTY_POLICY) {
      var hs := HashFirstChildren(digest, ms).value;
      RenderInjective(hs, []);
      assert ms == [];
    }
  }

  /** The module scripts of two adjacent parts of a document are those of each part, in order. */
  lemma {:induction false} ModuleScriptsAppend(a: seq<ScriptElement>, b: seq<ScriptElement>)
    ensures ModuleScripts(a + b) == ModuleScripts(a) + ModuleScripts(b)
    decreases |a|
  {
    if |a| > 0 {
      assert (a + b)[0] == a[0];
      assert (a + b)[1..] == a[1..] + b;
      ModuleScriptsAppend(a[1..], b);
    } else {
      assert a + b == b;
    }
  }

  /** A script whose type is not "module" contributes nothing, wherever it stands. */
  lemma NonModuleScriptIgnored(digest: Digest, a: seq<ScriptElement>, s: ScriptElement, b: seq<ScriptElement>)
    requires !IsModuleScript(s)
    ensures GenerateCsp(digest, a + [s] + b) == GenerateCsp(digest, a + b)
  {
    var ma, mb := ModuleScripts(a), ModuleScripts(b);
    ModuleScriptsAppend(a + [s], b);
    ModuleScriptsAppend(a, [s]);
    ModuleScriptsAppend(a, b);
    assert ModuleScripts([s]) == [] by {
      assert [s][1..] == [];
    }
    assert ma + [] == ma;
    assert ModuleScripts(a + [s] + b) == ModuleScripts(a + b);
  }

  /** Scripts with the same first child texts, pairwise, get the same digests or the same failure. */
  lemma {:induction false} FirstTextsDetermineHashes(digest: Digest, ms1: seq<ScriptElement>, ms2: seq<ScriptElement>)
    requires |ms1| == |ms2|
    requires forall i :: 0 <= i < |ms1| ==> FirstText(ms1[i]) == FirstText(ms2[i])
    ensures HashFirstChildren(digest, ms1) == HashFirstChildren(digest, ms2)
    decreases |ms1|
  {
    if |ms1| > 0 {
      var n := |ms1| - 1;
      FirstTextsDetermineHashes(digest, ms1[..n], ms2[..n]);
      assert FirstText(ms1[n]) == FirstText(ms2[n]);
    }
  }

  /**
   The policy depends on the module scripts' first child texts alone: other
   scripts, other attributes and later child nodes make no difference.
   */
  lemma FirstTextsDeterminePolicy(digest: Digest, doc1: seq<ScriptElement>, doc2: seq<ScriptElement>)
    requires ModuleFirstTexts(doc1) == ModuleFirstTexts(doc2)
    ensures GenerateCsp(digest, doc1) == GenerateCsp(digest, doc2)
  {
    assert forall i :: 0 <= i < |ModuleScripts(doc1)| ==>
             FirstText(ModuleScripts(doc1)[i]) == ModuleFirstTexts(doc1)[i];
    FirstTextsDetermineHashes(digest, ModuleScripts(doc1), ModuleScripts(doc2));
  }
}
