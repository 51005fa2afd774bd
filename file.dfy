/** file.go: a leaf node of the tree, holding text that can only grow. */
module Files {

  /** `file`: a name fixed at creation and content that `Append` extends. */
  class File {
    const name: string
    var data: string

    /** A file as `CreateFile` stores it: the given name and initial content. */
    constructor (name: string, data: string)
      ensures this.name == name && this.data == data
    {
      this.name := name;
      this.data := data;
    }

    /** `Append(s)`: the content becomes the old content followed by `s`;
        the name cannot change. Appending "" therefore changes nothing, two
        appends equal one append of the concatenation, and the content grows
        by exactly `|s|` characters. */
    method Append(s: string)
      modifies this
      ensures data == old(data) + s
      ensures |data| == |old(data)| + |s|
    {
      data := data + s;
    }

    /** `Data()`: the current content. */
    function Data(): string
      reads this
    {
      data
    }

    /** `Name()`: the name given at creation. */
    function Name(): string
    {
      name
    }
  }
}
