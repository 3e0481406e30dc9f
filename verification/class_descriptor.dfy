/** `ClassDescriptorSerialized`: the serialized, consolidated description of
    a partial class or interface, and the state its constructor starts from. */
module ClassDescriptor {

  datatype ClassDescriptorSerialized = ClassDescriptorSerialized(
    fileName: string,
    imports: seq<string>,
    package: string,
    /** The declared kind, the `Type` property: "class", "interface", ... */
    kind: string,
    comments: string,
    atts: string,
    mods: seq<string>,
    identifier: string,
    typeParameterList: string,
    /** An interface can extend several types */
    classExtends: seq<string>,
    classImplements: seq<string>,
    classBody: string,
    endComments: string,
    /** Nested partial types, by identifier */
    partialTypes: map<string, ClassDescriptorSerialized>
  )

  /** Nothing has been merged into the descriptor yet: every text and list
      is empty and there are no nested types */
  predicate IsBlank(d: ClassDescriptorSerialized) {
    && d.fileName == "" && d.package == "" && d.comments == "" && d.atts == ""
    && d.typeParameterList == "" && d.classBody == "" && d.endComments == ""
    && d.imports == [] && d.mods == [] && d.classExtends == [] && d.classImplements == []
    && d.partialTypes == map[]
  }

  /** The constructor `ClassDescriptorSerialized(name)`: a blank class
      descriptor for `name` */
  function NewClassDescriptor(name: string): (d: ClassDescriptorSerialized)
    ensures d.identifier == name
    ensures d.kind == "class"
    ensures IsBlank(d)
  {
    ClassDescriptorSerialized(
      fileName := "", imports := [], package := "", kind := "class", comments := "",
      atts := "", mods := [], identifier := name, typeParameterList := "",
      classExtends := [], classImplements := [], classBody := "", endComments := "",
      partialTypes := map[])
  }

  /** The blank class descriptor for a name is unique: it is the one the
      constructor builds */
  lemma NewClassDescriptorUnique(name: string, d: ClassDescriptorSerialized)
    requires IsBlank(d) && d.kind == "class" && d.identifier == name
    ensures d == NewClassDescriptor(name)
  {
  }
}
