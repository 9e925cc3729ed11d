/** The parts of an assembly's metadata that strong naming touches: its
    identity (public key, hash algorithm, attribute flags), its references to
    other assemblies with their public-key tokens, its custom attributes, and
    the module version id. `AssemblyImage` is the value a file holds;
    `AssemblyDefinition` is the loaded object `AddStrongName` patches in place. */
module Metadata {
  import opened Wrappers
  import opened Bytes

  /** A module version id (Mvid): 128 bits, `Guid.Empty` being zero. */
  newtype Guid = g: int | 0 <= g < 0x1_0000_0000_0000_0000_0000_0000_0000_0000
  const EmptyGuid: Guid := 0

  datatype AssemblyHashAlgorithm = NoHash | MD5 | SHA1 | SHA256 | SHA384 | SHA512

  /** The `AssemblyAttributes` flags of an assembly name. `HasPublicKey` is
      the public-key bit of these flags, not a separate field. */
  type AssemblyAttributes = bv32
  const PublicKeyFlag: AssemblyAttributes := 0x0001
  const RetargetableFlag: AssemblyAttributes := 0x0100

  /** A reference to another assembly; a `None` token is a null one. */
  datatype AssemblyReference = AssemblyReference(name: string, publicKeyToken: Option<seq<byte>>)

  /** A custom attribute: its type's full name and its constructor arguments. */
  datatype CustomAttribute = CustomAttribute(typeFullName: string, constructorArguments: seq<string>)

  datatype AssemblyImage = AssemblyImage(
    name: string,
    publicKey: seq<byte>,
    hashAlgorithm: AssemblyHashAlgorithm,
    attributes: AssemblyAttributes,
    references: seq<AssemblyReference>,
    customAttributes: seq<CustomAttribute>,
    mvid: Guid)
  {
    /** `AssemblyNameReference.HasPublicKey`: the public-key bit is set. */
    predicate HasPublicKey() {
      attributes & PublicKeyFlag != 0
    }
  }

  const InternalsVisibleToName: string := "System.Runtime.CompilerServices.InternalsVisibleToAttribute"
  const PublicKeyClause: string := ", PublicKey="

  // ---------------------------------------------------------------------------
  // What patching does, as functions of the metadata before it

  /** A reference whose token is null or empty names an unsigned assembly. */
  predicate LacksToken(r: AssemblyReference) {
    r.publicKeyToken.None? || r.publicKeyToken.value == []
  }

  function WithToken(r: AssemblyReference, token: seq<byte>): AssemblyReference {
    if LacksToken(r) then r.(publicKeyToken := Some(token)) else r
  }

  function PatchedReferences(refs: seq<AssemblyReference>, token: seq<byte>): seq<AssemblyReference> {
    seq(|refs|, i requires 0 <= i < |refs| => WithToken(refs[i], token))
  }

  /** Every reference without a token gets `token`; every other reference is
      kept as it was; none is added, dropped or moved. */
  lemma PatchedReferencesSpec(refs: seq<AssemblyReference>, token: seq<byte>)
    ensures |PatchedReferences(refs, token)| == |refs|
    ensures forall i :: 0 <= i < |refs| ==> PatchedReferences(refs, token)[i].name == refs[i].name
    ensures forall i :: 0 <= i < |refs| && LacksToken(refs[i]) ==>
      PatchedReferences(refs, token)[i].publicKeyToken == Some(token)
    ensures forall i :: 0 <= i < |refs| && !LacksToken(refs[i]) ==>
      PatchedReferences(refs, token)[i] == refs[i]
  {
  }

  predicate IsInternalsVisibleTo(a: CustomAttribute) {
    a.typeFullName == InternalsVisibleToName
  }

  /** A friend declaration whose first argument cannot be read (the argument
      list is empty, so indexing it throws). */
  predicate MissingArgument(a: CustomAttribute) {
    IsInternalsVisibleTo(a) && a.constructorArguments == []
  }

  function WithPublicKeyClause(a: CustomAttribute, hex: string): CustomAttribute {
    if IsInternalsVisibleTo(a) && a.constructorArguments != [] then
      a.(constructorArguments := a.constructorArguments[0 := a.constructorArguments[0] + PublicKeyClause + hex])
    else a
  }

  /** The custom attributes after the friend-declaration rewrite, or `None`
      when a friend declaration has no argument. */
  function PatchedAttributes(attrs: seq<CustomAttribute>, hex: string): Option<seq<CustomAttribute>> {
    if exists i :: 0 <= i < |attrs| && MissingArgument(attrs[i]) then None
    else Some(seq(|attrs|, i requires 0 <= i < |attrs| => WithPublicKeyClause(attrs[i], hex)))
  }

  /** The rewrite appends `", PublicKey=" + hex` to the first argument of every
      `InternalsVisibleTo` attribute and leaves everything else as it was; it
      fails exactly when some friend declaration has no argument. */
  lemma PatchedAttributesSpec(attrs: seq<CustomAttribute>, hex: string)
    ensures PatchedAttributes(attrs, hex).None? <==>
      exists i :: 0 <= i < |attrs| && MissingArgument(attrs[i])
    ensures PatchedAttributes(attrs, hex).Some? ==>
      var out := PatchedAttributes(attrs, hex).value;
      && |out| == |attrs|
      && (forall i :: 0 <= i < |attrs| && !IsInternalsVisibleTo(attrs[i]) ==> out[i] == attrs[i])
      && (forall i :: 0 <= i < |attrs| && IsInternalsVisibleTo(attrs[i]) ==>
            && out[i].typeFullName == attrs[i].typeFullName
            && |out[i].constructorArguments| == |attrs[i].constructorArguments| > 0
            && out[i].constructorArguments[0] == attrs[i].constructorArguments[0] + ", PublicKey=" + hex
            && out[i].constructorArguments[1..] == attrs[i].constructorArguments[1..])
  {
  }

  /** The rewrite has no guard against a clause that is already there: applied
      to its own output it appends the key a second time, so it is not
      idempotent as soon as there is one friend declaration. */
  lemma PatchedAttributesNotIdempotent(attrs: seq<CustomAttribute>, hex: string, k: nat)
    requires k < |attrs| && IsInternalsVisibleTo(attrs[k])
    requires PatchedAttributes(attrs, hex).Some?
    ensures PatchedAttributes(PatchedAttributes(attrs, hex).value, hex).Some?
    ensures PatchedAttributes(PatchedAttributes(attrs, hex).value, hex) != PatchedAttributes(attrs, hex)
  {
    var once := PatchedAttributes(attrs, hex).value;
    assert !exists i :: 0 <= i < |once| && MissingArgument(once[i]);
    var twice := PatchedAttributes(once, hex).value;
    assert |twice[k].constructorArguments[0]| == |once[k].constructorArguments[0]| + |PublicKeyClause| + |hex|;
    assert twice[k] != once[k];
  }

  // ---------------------------------------------------------------------------
  // The attribute flags after signing

  /** Lines 247-248: `HasPublicKey = true` sets the public-key bit, then
      `Attributes &= PublicKey` masks away every other flag. */
  function SignedAttributes(attributes: AssemblyAttributes): (signed: AssemblyAttributes)
    ensures signed & PublicKeyFlag != 0
    ensures signed & !PublicKeyFlag == 0
  {
    (attributes | PublicKeyFlag) & PublicKeyFlag
  }

  /** The mask does not keep the flags the assembly had: after signing the
      flags are the public-key bit alone, so a retargetable assembly loses
      `Retargetable`. */
  lemma SignedAttributesForgetFlags(attributes: AssemblyAttributes)
    ensures SignedAttributes(attributes) == PublicKeyFlag
    ensures SignedAttributes(RetargetableFlag) & RetargetableFlag == 0
  {
  }

  /** The metadata after `AddStrongName` has given `image` the strong name with
      `publicKey` and `token`, or `None` when the friend-declaration rewrite
      fails. */
  function Signed(image: AssemblyImage, publicKey: seq<byte>, token: seq<byte>): Option<AssemblyImage> {
    match PatchedAttributes(image.customAttributes, Hex(publicKey))
    case None => None
    case Some(attrs) =>
      Some(image.(
        publicKey := publicKey,
        hashAlgorithm := SHA1,
        attributes := SignedAttributes(image.attributes),
        references := PatchedReferences(image.references, token),
        customAttributes := attrs))
  }

  /** After signing, the assembly has a public key, that key is `publicKey`,
      its hash algorithm is SHA-1, the public-key bit is its only attribute
      flag, its references and friend declarations are patched, and its name
      and Mvid are kept. */
  lemma SignedIdentity(image: AssemblyImage, publicKey: seq<byte>, token: seq<byte>)
    requires Signed(image, publicKey, token).Some?
    ensures var s := Signed(image, publicKey, token).value;
      && s.HasPublicKey()
      && s.publicKey == publicKey
      && s.hashAlgorithm == SHA1
      && s.attributes == PublicKeyFlag
      && s.name == image.name
      && s.mvid == image.mvid
      && s.references == PatchedReferences(image.references, token)
      && Some(s.customAttributes) == PatchedAttributes(image.customAttributes, Hex(publicKey))
  {
  }

  /** Signing fails exactly when a friend declaration has no argument. */
  lemma SignedFailsOnlyOnFriendDeclarations(image: AssemblyImage, publicKey: seq<byte>, token: seq<byte>)
    ensures Signed(image, publicKey, token).None? <==>
      exists i :: 0 <= i < |image.customAttributes| && MissingArgument(image.customAttributes[i])
  {
    PatchedAttributesSpec(image.customAttributes, Hex(publicKey));
  }

  // ---------------------------------------------------------------------------
  // The loaded assembly, patched in place

  class AssemblyDefinition {
    const name: string
    var publicKey: seq<byte>
    var hashAlgorithm: AssemblyHashAlgorithm
    var attributes: AssemblyAttributes
    var references: seq<AssemblyReference>
    var customAttributes: seq<CustomAttribute>
    const mvid: Guid

    /** The metadata the object currently holds, as written back to a file. */
    function Image(): AssemblyImage
      reads this
    {
      AssemblyImage(name, publicKey, hashAlgorithm, attributes,
                    references, customAttributes, mvid)
    }

    /** `AssemblyDefinition.ReadAssembly` on a file holding `image`. */
    constructor Read(image: AssemblyImage)
      ensures Image() == image
    {
      name := image.name;
      publicKey := image.publicKey;
      hashAlgorithm := image.hashAlgorithm;
      attributes := image.attributes;
      references := image.references;
      customAttributes := image.customAttributes;
      mvid := image.mvid;
    }

    /** The four identity assignments (lines 245-248). */
    method SetStrongNameIdentity(key: seq<byte>)
      modifies this
      ensures Image() == old(Image()).(
        publicKey := key,
        hashAlgorithm := SHA1,
        attributes := SignedAttributes(old(attributes)))
      ensures Image().HasPublicKey()
    {
      hashAlgorithm := SHA1;
      publicKey := key;
      attributes := attributes | PublicKeyFlag;   // HasPublicKey = true
      attributes := attributes & PublicKeyFlag;
    }

    /** Gives `token` to every reference that has none (lines 250-254). */
    method PatchReferences(token: seq<byte>)
      modifies this
      ensures Image() == old(Image()).(references := PatchedReferences(old(references), token))
    {
      var i := 0;
      while i < |references|
        invariant i <= |references| == |old(references)|
        invariant forall j :: 0 <= j < i ==> references[j] == WithToken(old(references)[j], token)
        invariant forall j :: i <= j < |references| ==> references[j] == old(references)[j]
        invariant Image() == old(Image()).(references := references)
      {
        if LacksToken(references[i]) {
          references := references[i := references[i].(publicKeyToken := Some(token))];
        }
        i := i + 1;
      }
    }

    /** Appends the key clause to every friend declaration (lines 256-266).
        Returns false where reading a declaration's argument throws; the
        object is then discarded, so what it holds is only bounded. */
    method PatchInternalsVisibleTo(hex: string) returns (ok: bool)
      modifies this
      ensures ok == PatchedAttributes(old(customAttributes), hex).Some?
      ensures ok ==> Image() == old(Image()).(customAttributes := PatchedAttributes(old(customAttributes), hex).value)
      ensures !ok ==> Image() == old(Image()).(customAttributes := customAttributes)
      ensures |customAttributes| == |old(customAttributes)|
    {
      var i := 0;
      while i < |customAttributes|
        invariant i <= |customAttributes| == |old(customAttributes)|
        invariant forall j :: 0 <= j < i ==> !MissingArgument(old(customAttributes)[j])
        invariant forall j :: 0 <= j < i ==> customAttributes[j] == WithPublicKeyClause(old(customAttributes)[j], hex)
        invariant forall j :: i <= j < |customAttributes| ==> customAttributes[j] == old(customAttributes)[j]
        invariant Image() == old(Image()).(customAttributes := customAttributes)
      {
        var attribute := customAttributes[i];
        if IsInternalsVisibleTo(attribute) {
          if attribute.constructorArguments == [] {
            assert MissingArgument(old(customAttributes)[i]);
            return false;
          }
          var friend := attribute.constructorArguments[0];
          var rewritten := friend + PublicKeyClause + hex;
          customAttributes := customAttributes[i := attribute.(
            constructorArguments := attribute.constructorArguments[0 := rewritten])];
        }
        i := i + 1;
      }
      ok := true;
      assert customAttributes == PatchedAttributes(old(customAttributes), hex).value;
    }
  }
}
