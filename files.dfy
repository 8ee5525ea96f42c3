/** The files the updaters read and write: a map from path to text, and the list of
    paths written so far, in order. Encoding to and from UTF-8 is not modelled. */
module FileSystem {
  import opened Wrappers

  class Disk {
    var files: map<string, string>
    var writes: seq<string>

    constructor(files: map<string, string>)
      ensures this.files == files && writes == []
    {
      this.files := files;
      writes := [];
    }

    /** `open(path, 'rb').read()`: None when there is no such file. */
    function Read(path: string): (r: Option<string>)
      reads this
      ensures r.Some? <==> path in files
      ensures r.Some? ==> r.value == files[path]
    {
      if path in files then Some(files[path]) else None
    }

    /** `open(path, 'wb').write(content)`: creates or overwrites the file. */
    method Write(path: string, content: string)
      modifies this
      ensures files == old(files)[path := content]
      ensures writes == old(writes) + [path]
    {
      files := files[path := content];
      writes := writes + [path];
    }
  }
}
