/** Applying an algorithm policy to the signatures of a document
    (crates/gamlastan/src/crypto/verifier.rs). */
module SignaturePolicy {
  import opened Wrappers
  import opened AlgorithmPolicy

  const XMLDSIG_NS := "http://www.w3.org/2000/09/xmldsig#"

  datatype Node =
    | Element(ns: Option<string>, name: string, algorithm: Option<string>, children: seq<Node>)
    | Text

  datatype PolicyError = VerificationFailed | DisallowedSignature(uri: string) | DisallowedDigest(uri: string)

  type Verdict = Result<(), PolicyError>

  predicate IsDsig(n: Node, name: string) {
    n.Element? && n.name == name && n.ns == Some(XMLDSIG_NS)
  }

  /** The direct XML-DSig children with a name, in order. */
  function DsigChildren(children: seq<Node>, name: string): seq<Node> {
    if children == [] then []
    else (if IsDsig(children[0], name) then [children[0]] else []) + DsigChildren(children[1..], name)
  }

  function ChildrenOf(n: Node): seq<Node> {
    if n.Element? then n.children else []
  }

  function ExactlyOneChild(parent: Node, name: string): Result<Node, PolicyError> {
    var matches := DsigChildren(ChildrenOf(parent), name);
    if |matches| == 0 || |matches| > 1 then Err(VerificationFailed) else Ok(matches[0])
  }

  function AlgorithmOf(n: Node): Result<string, PolicyError> {
    if n.Element? && n.algorithm.Some? then Ok(n.algorithm.value) else Err(VerificationFailed)
  }

  /** The loop over the references of a SignedInfo. */
  function CheckReferences(references: seq<Node>, policy: Policy): Verdict {
    if references == [] then Ok(())
    else match ExactlyOneChild(references[0], "DigestMethod")
      case Err(e) => Err(e)
      case Ok(found) => (match AlgorithmOf(found)
        case Err(e) => Err(e)
        case Ok(uri) =>
          if !policy.AllowsDigest(uri) then Err(DisallowedDigest(uri)) else CheckReferences(references[1..], policy))
  }

  /** How the verifier is set up: the allowlists, whether HMAC is refused
      outright, and which URIs are HMAC. */
  datatype Setup = Setup(policy: Policy, rejectHmac: bool, isHmac: string -> bool)

  function CheckInfo(info: Node, s: Setup): Verdict {
    match ExactlyOneChild(info, "SignatureMethod")
    case Err(e) => Err(e)
    case Ok(found) => (match AlgorithmOf(found)
      case Err(e) => Err(e)
      case Ok(uri) =>
        if s.rejectHmac && s.isHmac(uri) then Err(VerificationFailed)
        else if !s.policy.AllowsSignature(uri) then Err(DisallowedSignature(uri))
        else CheckReferences(DsigChildren(ChildrenOf(info), "Reference"), s.policy))
  }

  function CheckSignature(signature: Node, s: Setup): Verdict {
    match ExactlyOneChild(signature, "SignedInfo")
    case Err(e) => Err(e)
    case Ok(info) => CheckInfo(info, s)
  }

  datatype Selection = First | All

  /** Document order: an element before its children. */
  function Preorder(n: Node): seq<Node>
    decreases n, 1
  {
    [n] + PreorderChildren(n, 0)
  }

  function PreorderChildren(n: Node, i: nat): seq<Node>
    decreases n, 0, |ChildrenOf(n)| - i
  {
    if i >= |ChildrenOf(n)| then [] else Preorder(ChildrenOf(n)[i]) + PreorderChildren(n, i + 1)
  }

  /** The loop over the nodes of the document. */
  function CheckNodes(nodes: seq<Node>, s: Setup, selection: Selection): Verdict {
    if nodes == [] then Ok(())
    else if !IsDsig(nodes[0], "Signature") then CheckNodes(nodes[1..], s, selection)
    else match CheckSignature(nodes[0], s)
      case Err(e) => Err(e)
      case Ok(_) => if selection == First then Ok(()) else CheckNodes(nodes[1..], s, selection)
  }

  function ValidateEnveloped(root: Option<Node>, s: Setup, selection: Selection): Verdict {
    if s.policy.IsPermissive() && !s.rejectHmac then Ok(())
    else match root
      case None => Ok(())
      case Some(r) => CheckNodes(Preorder(r), s, selection)
  }

  // ---- What the checks mean -------------------------------------------------------------

  /** `n` is the one XML-DSig child of that name. */
  ghost predicate OnlyChild(parent: Node, name: string, n: Node) {
    var cs := ChildrenOf(parent);
    exists i :: 0 <= i < |cs| && cs[i] == n && IsDsig(n, name)
                && forall j :: 0 <= j < |cs| && IsDsig(cs[j], name) ==> j == i
  }

  ghost predicate GoodReference(reference: Node, policy: Policy) {
    exists m :: OnlyChild(reference, "DigestMethod", m) && m.algorithm.Some? && policy.AllowsDigest(m.algorithm.value)
  }

  ghost predicate GoodMethod(info: Node, s: Setup) {
    exists m :: OnlyChild(info, "SignatureMethod", m) && m.algorithm.Some?
                && !(s.rejectHmac && s.isHmac(m.algorithm.value)) && s.policy.AllowsSignature(m.algorithm.value)
  }

  /** One SignatureMethod with an allowed algorithm, and in each direct Reference
      one DigestMethod with an allowed algorithm. */
  ghost predicate GoodInfo(info: Node, s: Setup) {
    GoodMethod(info, s) && forall r :: r in ChildrenOf(info) && IsDsig(r, "Reference") ==> GoodReference(r, s.policy)
  }

  ghost predicate GoodSignature(signature: Node, s: Setup) {
    exists info :: OnlyChild(signature, "SignedInfo", info) && GoodInfo(info, s)
  }

  /** Only elements of the XML-DSig namespace are looked at. */
  lemma DsigExactly(n: Node, name: string)
    ensures IsDsig(n, name) <==> n.Element? && n.name == name && n.ns == Some("http://www.w3.org/2000/09/xmldsig#")
  {
  }

  /** A node of the tree below and including `root`. */
  predicate Within(n: Node, root: Node)
    decreases root
  {
    n == root || (root.Element? && exists c :: c in root.children && Within(n, c))
  }

  lemma {:induction false} DsigChildrenMeaning(children: seq<Node>, name: string)
    ensures forall n :: n in DsigChildren(children, name) <==> n in children && IsDsig(n, name)
  {
    if children != [] {
      DsigChildrenMeaning(children[1..], name);
      assert children == [children[0]] + children[1..];
    }
  }

  lemma {:induction false} OneMatch(children: seq<Node>, name: string, i: nat)
    requires i < |children| && IsDsig(children[i], name)
    requires forall j :: 0 <= j < |children| && IsDsig(children[j], name) ==> j == i
    ensures DsigChildren(children, name) == [children[i]]
  {
    var tail := children[1..];
    if i == 0 {
      NoMatch(tail, name);
    } else {
      assert tail[i - 1] == children[i];
      OneMatch(tail, name, i - 1);
    }
  }

  lemma {:induction false} NoMatch(children: seq<Node>, name: string)
    requires forall j :: 0 <= j < |children| ==> !IsDsig(children[j], name)
    ensures DsigChildren(children, name) == []
  {
    if children != [] {
      NoMatch(children[1..], name);
    }
  }

  lemma {:induction false} MatchPosition(children: seq<Node>, name: string) returns (i: nat)
    requires |DsigChildren(children, name)| == 1
    ensures i < |children| && children[i] == DsigChildren(children, name)[0] && IsDsig(children[i], name)
    ensures forall j :: 0 <= j < |children| && IsDsig(children[j], name) ==> j == i
  {
    var tail := children[1..];
    if IsDsig(children[0], name) {
      i := 0;
      DsigChildrenMeaning(tail, name);
      assert DsigChildren(tail, name) == [];
      forall j | 0 < j < |children|
        ensures !IsDsig(children[j], name)
      {
        assert tail[j - 1] == children[j] && tail[j - 1] in tail;
      }
    } else {
      var k := MatchPosition(tail, name);
      i := k + 1;
      forall j | 0 <= j < |children| && IsDsig(children[j], name)
        ensures j == i
      {
        assert j > 0 ==> tail[j - 1] == children[j];
      }
    }
  }

  /** The child finder finds exactly the only child. */
  lemma OnlyChildFound(parent: Node, name: string, n: Node)
    ensures ExactlyOneChild(parent, name) == Ok(n) <==> OnlyChild(parent, name, n)
  {
    var cs := ChildrenOf(parent);
    if ExactlyOneChild(parent, name) == Ok(n) {
      var i := MatchPosition(cs, name);
    }
    if OnlyChild(parent, name, n) {
      var i :| 0 <= i < |cs| && cs[i] == n && IsDsig(n, name) && forall j :: 0 <= j < |cs| && IsDsig(cs[j], name) ==> j == i;
      OneMatch(cs, name, i);
    }
  }

  lemma ReferenceMeaning(reference: Node, policy: Policy)
    ensures CheckReferences([reference], policy).Ok? <==> GoodReference(reference, policy)
  {
    var found := ExactlyOneChild(reference, "DigestMethod");
    if found.Ok? {
      OnlyChildFound(reference, "DigestMethod", found.value);
      assert [reference][1..] == [];
    }
    if GoodReference(reference, policy) {
      var m :| OnlyChild(reference, "DigestMethod", m) && m.algorithm.Some? && policy.AllowsDigest(m.algorithm.value);
      OnlyChildFound(reference, "DigestMethod", m);
    }
  }

  lemma {:induction false} ReferencesMeaning(references: seq<Node>, policy: Policy)
    ensures CheckReferences(references, policy).Ok? <==> forall r :: r in references ==> GoodReference(r, policy)
  {
    if references != [] {
      ReferenceMeaning(references[0], policy);
      ReferencesMeaning(references[1..], policy);
      assert references == [references[0]] + references[1..];
      assert [references[0]][1..] == [];
    }
  }

  lemma MethodMeaning(info: Node, s: Setup)
    ensures GoodMethod(info, s) <==>
            var found := ExactlyOneChild(info, "SignatureMethod");
            found.Ok? && AlgorithmOf(found.value).Ok? && !(s.rejectHmac && s.isHmac(AlgorithmOf(found.value).value))
            && s.policy.AllowsSignature(AlgorithmOf(found.value).value)
  {
    var found := ExactlyOneChild(info, "SignatureMethod");
    if found.Ok? {
      OnlyChildFound(info, "SignatureMethod", found.value);
    }
    if GoodMethod(info, s) {
      var m :| OnlyChild(info, "SignatureMethod", m) && m.algorithm.Some?
               && !(s.rejectHmac && s.isHmac(m.algorithm.value)) && s.policy.AllowsSignature(m.algorithm.value);
      OnlyChildFound(info, "SignatureMethod", m);
    }
  }

  /** A signature passes exactly when it is well-formed and allowed. */
  lemma SignatureMeaning(signature: Node, s: Setup)
    ensures CheckSignature(signature, s).Ok? <==> GoodSignature(signature, s)
  {
    var found := ExactlyOneChild(signature, "SignedInfo");
    if found.Ok? {
      OnlyChildFound(signature, "SignedInfo", found.value);
      InfoMeaning(found.value, s);
    }
    if GoodSignature(signature, s) {
      var info :| OnlyChild(signature, "SignedInfo", info) && GoodInfo(info, s);
      OnlyChildFound(signature, "SignedInfo", info);
      InfoMeaning(info, s);
    }
  }

  lemma InfoMeaning(info: Node, s: Setup)
    ensures CheckInfo(info, s).Ok? <==> GoodInfo(info, s)
  {
    MethodMeaning(info, s);
    DsigChildrenMeaning(ChildrenOf(info), "Reference");
    ReferencesMeaning(DsigChildren(ChildrenOf(info), "Reference"), s.policy);
  }

  // ---- Which error a signature gives -----------------------------------------------------------

  ghost predicate HasOnly(parent: Node, name: string) {
    exists n :: OnlyChild(parent, name, n)
  }

  lemma NotOnlyFails(parent: Node, name: string)
    requires !HasOnly(parent, name)
    ensures ExactlyOneChild(parent, name) == Err(VerificationFailed)
  {
    var found := ExactlyOneChild(parent, name);
    if found.Ok? {
      OnlyChildFound(parent, name, found.value);
    }
  }

  /** A signature without one SignedInfo, or whose SignedInfo has not one
      SignatureMethod with an algorithm, fails verification; so does one that
      uses a refused HMAC.  An algorithm that is not allowed is reported as such. */
  lemma SignatureErrors(signature: Node, info: Node, found: Node, s: Setup)
    ensures !HasOnly(signature, "SignedInfo") ==> CheckSignature(signature, s) == Err(VerificationFailed)
    ensures OnlyChild(signature, "SignedInfo", info) && !HasOnly(info, "SignatureMethod")
            ==> CheckSignature(signature, s) == Err(VerificationFailed)
    ensures OnlyChild(signature, "SignedInfo", info) && OnlyChild(info, "SignatureMethod", found) ==>
              && (found.algorithm.None? ==> CheckSignature(signature, s) == Err(VerificationFailed))
              && (found.algorithm.Some? && s.rejectHmac && s.isHmac(found.algorithm.value)
                  ==> CheckSignature(signature, s) == Err(VerificationFailed))
              && (found.algorithm.Some? && !(s.rejectHmac && s.isHmac(found.algorithm.value))
                  && !s.policy.AllowsSignature(found.algorithm.value)
                  ==> CheckSignature(signature, s) == Err(DisallowedSignature(found.algorithm.value)))
  {
    if !HasOnly(signature, "SignedInfo") {
      NotOnlyFails(signature, "SignedInfo");
    } else if OnlyChild(signature, "SignedInfo", info) {
      OnlyChildFound(signature, "SignedInfo", info);
      if !HasOnly(info, "SignatureMethod") {
        NotOnlyFails(info, "SignatureMethod");
      } else {
        OnlyChildFound(info, "SignatureMethod", found);
      }
    }
  }

  /** With an allowed SignatureMethod, the first bad Reference decides: an
      algorithm that is not allowed is reported as such, anything else fails. */
  lemma {:induction false} ReferenceErrors(references: seq<Node>, i: nat, found: Node, policy: Policy)
    requires i < |references| && !GoodReference(references[i], policy)
    requires forall k :: 0 <= k < i ==> GoodReference(references[k], policy)
    ensures !HasOnly(references[i], "DigestMethod") ==> CheckReferences(references, policy) == Err(VerificationFailed)
    ensures OnlyChild(references[i], "DigestMethod", found) ==>
              CheckReferences(references, policy)
              == Err(if found.algorithm.Some? then DisallowedDigest(found.algorithm.value) else VerificationFailed)
    decreases i
  {
    if i > 0 {
      ReferenceMeaning(references[0], policy);
      assert [references[0]][1..] == [];
      ReferenceErrors(references[1..], i - 1, found, policy);
    } else if !HasOnly(references[0], "DigestMethod") {
      NotOnlyFails(references[0], "DigestMethod");
    } else if OnlyChild(references[0], "DigestMethod", found) {
      OnlyChildFound(references[0], "DigestMethod", found);
    }
  }

  lemma GoodMethodThenReferences(signature: Node, info: Node, s: Setup)
    requires OnlyChild(signature, "SignedInfo", info) && GoodMethod(info, s)
    ensures CheckSignature(signature, s) == CheckReferences(DsigChildren(ChildrenOf(info), "Reference"), s.policy)
  {
    OnlyChildFound(signature, "SignedInfo", info);
    MethodMeaning(info, s);
  }

  // ---- The traversal ------------------------------------------------------------------------

  lemma {:induction false} PreorderMeaning(root: Node, n: Node)
    ensures n in Preorder(root) <==> Within(n, root)
    decreases root, 1
  {
    PreorderChildrenMeaning(root, 0, n);
    assert Preorder(root) == [root] + PreorderChildren(root, 0);
    if root.Element? && exists c :: c in root.children && Within(n, c) {
      var c :| c in root.children && Within(n, c);
      var k :| 0 <= k < |root.children| && root.children[k] == c;
    }
  }

  lemma {:induction false} PreorderChildrenMeaning(root: Node, i: nat, n: Node)
    ensures n in PreorderChildren(root, i) <==> exists k :: i <= k < |ChildrenOf(root)| && Within(n, ChildrenOf(root)[k])
    decreases root, 0, |ChildrenOf(root)| - i
  {
    var cs := ChildrenOf(root);
    if i < |cs| {
      PreorderMeaning(cs[i], n);
      PreorderChildrenMeaning(root, i + 1, n);
      if k :| i <= k < |cs| && Within(n, cs[k]) {
        assert k > i ==> i + 1 <= k;
      }
    }
  }

  lemma {:induction false} AllNodesMeaning(nodes: seq<Node>, s: Setup)
    ensures CheckNodes(nodes, s, All).Ok? <==> forall n :: n in nodes && IsDsig(n, "Signature") ==> GoodSignature(n, s)
  {
    if nodes != [] {
      SignatureMeaning(nodes[0], s);
      AllNodesMeaning(nodes[1..], s);
      assert nodes == [nodes[0]] + nodes[1..];
    }
  }

  /** With a policy that is not skipped, the all-signatures check passes exactly
      when every XML-DSig Signature anywhere in the tree is good. */
  lemma AllSignaturesMeaning(root: Node, s: Setup)
    requires !(s.policy.IsPermissive() && !s.rejectHmac)
    ensures ValidateEnveloped(Some(root), s, All).Ok? <==>
            forall n :: Within(n, root) && IsDsig(n, "Signature") ==> GoodSignature(n, s)
  {
    AllNodesMeaning(Preorder(root), s);
    forall n
      ensures n in Preorder(root) <==> Within(n, root)
    {
      PreorderMeaning(root, n);
    }
  }

  // ---- The first signature in document order ------------------------------------------------

  /** A position in the tree: which child to take at each step down. */
  type Path = seq<nat>

  function NodeAt(n: Node, path: Path): Option<Node> {
    if path == [] then Some(n)
    else if path[0] < |ChildrenOf(n)| then NodeAt(ChildrenOf(n)[path[0]], path[1..])
    else None
  }

  /** Document order: a node before what is below it, and whatever is in or
      below a child before whatever is in or below a later one. */
  predicate Before(p: Path, q: Path) {
    q != [] && (p == [] || p[0] < q[0] || (p[0] == q[0] && Before(p[1..], q[1..])))
  }

  predicate SignatureAt(root: Node, path: Path) {
    var n := NodeAt(root, path);
    n.Some? && IsDsig(n.value, "Signature")
  }

  ghost predicate NoSignature(root: Node) {
    forall path :: !SignatureAt(root, path)
  }

  ghost predicate FirstAt(root: Node, path: Path) {
    SignatureAt(root, path) && forall q :: SignatureAt(root, q) && q != path ==> Before(path, q)
  }

  lemma BelowChild(root: Node, i: nat, path: Path)
    ensures SignatureAt(root, [i] + path) <==> i < |ChildrenOf(root)| && SignatureAt(ChildrenOf(root)[i], path)
  {
    assert ([i] + path)[1..] == path;
  }

  lemma ChildrenHaveNone(root: Node, i: nat)
    requires NoSignature(root) && i < |ChildrenOf(root)|
    ensures NoSignature(ChildrenOf(root)[i])
  {
    forall path
      ensures !SignatureAt(ChildrenOf(root)[i], path)
    {
      BelowChild(root, i, path);
    }
  }

  lemma {:induction false} SkipTree(root: Node, rest: seq<Node>, s: Setup, selection: Selection)
    requires NoSignature(root)
    ensures CheckNodes(Preorder(root) + rest, s, selection) == CheckNodes(rest, s, selection)
    decreases root, 1
  {
    assert !SignatureAt(root, []);
    assert (Preorder(root) + rest)[1..] == PreorderChildren(root, 0) + rest;
    SkipChildren(root, 0, rest, s, selection);
  }

  lemma {:induction false} SkipChildren(root: Node, i: nat, rest: seq<Node>, s: Setup, selection: Selection)
    requires NoSignature(root)
    ensures CheckNodes(PreorderChildren(root, i) + rest, s, selection) == CheckNodes(rest, s, selection)
    decreases root, 0, |ChildrenOf(root)| - i
  {
    if i >= |ChildrenOf(root)| {
      assert PreorderChildren(root, i) + rest == rest;
    } else {
      var later := PreorderChildren(root, i + 1);
      ChildrenHaveNone(root, i);
      assert PreorderChildren(root, i) + rest == Preorder(ChildrenOf(root)[i]) + (later + rest);
      SkipTree(ChildrenOf(root)[i], later + rest, s, selection);
      SkipChildren(root, i + 1, rest, s, selection);
    }
  }

  /** The first signature of a tree lies below one child, is the first there,
      and there is none in the children before. */
  lemma FirstBelow(root: Node, path: Path)
    requires FirstAt(root, path) && path != []
    ensures !IsDsig(root, "Signature") && path[0] < |ChildrenOf(root)| && FirstAt(ChildrenOf(root)[path[0]], path[1..])
    ensures forall j :: 0 <= j < path[0] ==> NoSignature(ChildrenOf(root)[j])
  {
    var i, tail := path[0], path[1..];
    assert !SignatureAt(root, []);
    assert path == [i] + tail;
    BelowChild(root, i, tail);
    forall q | SignatureAt(ChildrenOf(root)[i], q) && q != tail
      ensures Before(tail, q)
    {
      BelowChild(root, i, q);
      assert ([i] + q)[1..] == q;
      assert Before(path, [i] + q);
    }
    forall j | 0 <= j < i
      ensures NoSignature(ChildrenOf(root)[j])
    {
      forall q
        ensures !SignatureAt(ChildrenOf(root)[j], q)
      {
        BelowChild(root, j, q);
        assert !Before(path, [j] + q);
      }
    }
  }

  lemma {:induction false} FirstDecides(root: Node, path: Path, rest: seq<Node>, s: Setup)
    requires FirstAt(root, path)
    ensures CheckNodes(Preorder(root) + rest, s, First) == CheckSignature(NodeAt(root, path).value, s)
    decreases root, 1
  {
    var nodes := Preorder(root) + rest;
    assert nodes[0] == root;
    if path == [] {
      assert CheckSignature(root, s).Ok? ==> CheckSignature(root, s).value == ();
    } else {
      FirstBelow(root, path);
      assert nodes[1..] == PreorderChildren(root, 0) + rest;
      FirstChildDecides(root, 0, path, rest, s);
    }
  }

  lemma {:induction false} FirstChildDecides(root: Node, j: nat, path: Path, rest: seq<Node>, s: Setup)
    requires path != [] && j <= path[0] < |ChildrenOf(root)| && FirstAt(ChildrenOf(root)[path[0]], path[1..])
    requires forall k :: j <= k < path[0] ==> NoSignature(ChildrenOf(root)[k])
    ensures CheckNodes(PreorderChildren(root, j) + rest, s, First) == CheckSignature(NodeAt(root, path).value, s)
    decreases root, 0, |ChildrenOf(root)| - j
  {
    var child, later := ChildrenOf(root)[j], PreorderChildren(root, j + 1);
    assert PreorderChildren(root, j) + rest == Preorder(child) + (later + rest);
    if j == path[0] {
      FirstDecides(child, path[1..], later + rest, s);
    } else {
      SkipTree(child, later + rest, s, First);
      FirstChildDecides(root, j + 1, path, rest, s);
    }
  }

  lemma {:induction false} FirstExists(root: Node) returns (path: Path)
    ensures NoSignature(root) || FirstAt(root, path)
    decreases root, 1
  {
    path := [];
    if !IsDsig(root, "Signature") {
      var found := FirstChildExists(root, 0);
      if found < |ChildrenOf(root)| {
        var below := FirstExists(ChildrenOf(root)[found]);
        path := [found] + below;
        FirstThrough(root, found, below);
      } else {
        forall q
          ensures !SignatureAt(root, q)
        {
          if q != [] && q[0] < |ChildrenOf(root)| {
            assert !SignatureAt(ChildrenOf(root)[q[0]], q[1..]);
          }
        }
      }
    }
  }

  lemma {:induction false} FirstChildExists(root: Node, i: nat) returns (found: nat)
    requires i <= |ChildrenOf(root)|
    ensures i <= found <= |ChildrenOf(root)|
    ensures forall j :: i <= j < found ==> NoSignature(ChildrenOf(root)[j])
    ensures found < |ChildrenOf(root)| ==> !NoSignature(ChildrenOf(root)[found])
    decreases |ChildrenOf(root)| - i
  {
    if i == |ChildrenOf(root)| || !NoSignature(ChildrenOf(root)[i]) {
      found := i;
    } else {
      found := FirstChildExists(root, i + 1);
    }
  }

  lemma FirstThrough(root: Node, i: nat, below: Path)
    requires !IsDsig(root, "Signature") && i < |ChildrenOf(root)| && FirstAt(ChildrenOf(root)[i], below)
    requires forall j :: 0 <= j < i ==> NoSignature(ChildrenOf(root)[j])
    ensures FirstAt(root, [i] + below)
  {
    var path := [i] + below;
    BelowChild(root, i, below);
    forall q | SignatureAt(root, q) && q != path
      ensures Before(path, q)
    {
      assert q != [];
      assert q == [q[0]] + q[1..];
      BelowChild(root, q[0], q[1..]);
      assert path[1..] == below;
      if q[0] == i {
        assert q[1..] != below;
      }
    }
  }

  /** When the check passes, for every document, setup and selection: it is
      skipped, there is no document element, every XML-DSig Signature of the
      tree is good, or for `First` there is none or the first one in document
      order is good. */
  lemma EnvelopedExactly(root: Option<Node>, s: Setup, selection: Selection)
    ensures ValidateEnveloped(root, s, selection).Ok? <==>
            || (s.policy.signatures.None? && s.policy.digests.None? && !s.rejectHmac)
            || root.None?
            || (selection == All && forall n :: Within(n, root.value) && IsDsig(n, "Signature") ==> GoodSignature(n, s))
            || (selection == First
                && (NoSignature(root.value)
                    || exists path :: FirstAt(root.value, path) && GoodSignature(NodeAt(root.value, path).value, s)))
  {
    if root.Some? && !(s.policy.IsPermissive() && !s.rejectHmac) {
      if selection == All {
        AllSignaturesMeaning(root.value, s);
      } else {
        FirstSignatureMeaning(root.value, s);
      }
    }
  }

  lemma FirstSignatureMeaning(root: Node, s: Setup)
    requires !(s.policy.IsPermissive() && !s.rejectHmac)
    ensures ValidateEnveloped(Some(root), s, First).Ok? <==>
            NoSignature(root) || exists path :: FirstAt(root, path) && GoodSignature(NodeAt(root, path).value, s)
    ensures forall path :: FirstAt(root, path) ==>
              ValidateEnveloped(Some(root), s, First) == CheckSignature(NodeAt(root, path).value, s)
  {
    var nodes := Preorder(root);
    assert nodes + [] == nodes;
    if NoSignature(root) {
      SkipTree(root, [], s, First);
    } else {
      var path := FirstExists(root);
      FirstDecides(root, path, [], s);
      SignatureMeaning(NodeAt(root, path).value, s);
      forall other | FirstAt(root, other)
        ensures other == path
      {
        OrderIsStrict(path, other);
      }
    }
  }

  lemma {:induction false} OrderIsStrict(p: Path, q: Path)
    ensures !(Before(p, q) && Before(q, p))
  {
    if p != [] && q != [] && p[0] == q[0] {
      OrderIsStrict(p[1..], q[1..]);
    }
  }

  lemma {:induction false} AllImpliesFirstOnNodes(nodes: seq<Node>, s: Setup)
    requires CheckNodes(nodes, s, All).Ok?
    ensures CheckNodes(nodes, s, First).Ok?
  {
    if nodes != [] && !IsDsig(nodes[0], "Signature") {
      AllImpliesFirstOnNodes(nodes[1..], s);
    }
  }

  /** Passing the all-signatures check implies passing the first-signature one. */
  lemma AllImpliesFirst(root: Option<Node>, s: Setup)
    requires ValidateEnveloped(root, s, All).Ok?
    ensures ValidateEnveloped(root, s, First).Ok?
  {
    if root.Some? && !(s.policy.IsPermissive() && !s.rejectHmac) {
      AllImpliesFirstOnNodes(Preorder(root.value), s);
    }
  }

  ghost predicate Wider(p: Policy, q: Policy) {
    && (forall uri :: p.AllowsSignature(uri) ==> q.AllowsSignature(uri))
    && (forall uri :: p.AllowsDigest(uri) ==> q.AllowsDigest(uri))
  }

  lemma {:induction false} ReferencesWiden(references: seq<Node>, p: Policy, q: Policy)
    requires Wider(p, q) && CheckReferences(references, p).Ok?
    ensures CheckReferences(references, q).Ok?
  {
    if references != [] {
      ReferencesWiden(references[1..], p, q);
    }
  }

  lemma {:induction false} NodesWiden(nodes: seq<Node>, s: Setup, q: Policy, selection: Selection)
    requires Wider(s.policy, q) && CheckNodes(nodes, s, selection).Ok?
    ensures CheckNodes(nodes, s.(policy := q), selection).Ok?
  {
    if nodes != [] {
      if IsDsig(nodes[0], "Signature") {
        var info := ExactlyOneChild(nodes[0], "SignedInfo").value;
        ReferencesWiden(DsigChildren(ChildrenOf(info), "Reference"), s.policy, q);
        if selection == All {
          NodesWiden(nodes[1..], s, q, selection);
        }
      } else {
        NodesWiden(nodes[1..], s, q, selection);
      }
    }
  }

  /** Enlarging either allowlist never turns acceptance into rejection, whichever
      signatures are looked at. */
  lemma WiderPolicyAccepts(root: Option<Node>, s: Setup, q: Policy, selection: Selection)
    requires Wider(s.policy, q) && ValidateEnveloped(root, s, selection).Ok?
    ensures ValidateEnveloped(root, s.(policy := q), selection).Ok?
  {
    if s.policy.IsPermissive() && !q.IsPermissive() {
      AcceptsAllIsPermissive(q);
    } else if root.Some? && !(s.policy.IsPermissive() && !s.rejectHmac) {
      NodesWiden(Preorder(root.value), s, q, selection);
    }
  }

  /** Only an unrestricted policy accepts everything. */
  lemma AcceptsAllIsPermissive(q: Policy)
    requires Wider(Policy(None, None), q)
    ensures q.IsPermissive()
  {
    var p := Policy(None, None);
    if q.signatures.Some? {
      assert p.AllowsSignature(Longer(q.signatures.value));
    }
    if q.digests.Some? {
      assert p.AllowsDigest(Longer(q.digests.value));
    }
  }
}
