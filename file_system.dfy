/**
 * The files the configurators read and rewrite. A file is modelled by what the parsers make of
 * it; reading and writing bytes, encodings and indentation are not modelled.
 */
module FileSystem {
  import opened Wrappers
  import opened Models
  import opened Json
  import opened Xml

  /**
   * What a file holds: a JSON document (`JNull` when the text is the literal `null`, which
   * `JsonNode.Parse` returns as a null node), an XML document, or text neither parser accepts.
   */
  datatype FileContent = JsonFile(json: Json) | XmlFile(document: XmlNode) | OtherFile

  /** The files of the machine, by path; a path is present exactly when `File.Exists` holds. */
  type Files = map<string, FileContent>

  /** What one configurator call did: how it returned and the files afterwards. */
  datatype Effect = Effect(outcome: Outcome<Error>, files: Files)

  /** The file system as the configurators see it. */
  class Disk {
    var files: Files

    constructor (files: Files)
      ensures this.files == files
    {
      this.files := files;
    }

    /** Truncate-and-rewrite of a whole file. */
    method Write(path: string, content: FileContent)
      modifies this
      ensures files == old(files)[path := content]
    {
      files := files[path := content];
    }
  }
}
