/**
 * Blob.java: an immutable snapshot of one working file, identified by the
 * SHA-1 digest of its serialized form.
 */
module Blobs {
  import opened Wrappers
  import JavaLang

  /** Length of a full SHA-1 id in hexadecimal characters (ID_LENGTH). */
  const IdLength := 40

  /** A full commit or blob id: a SHA-1 digest, 40 characters long (its hexadecimal alphabet is not modelled). */
  type Id = s: string | |s| == IdLength
    witness "0000000000000000000000000000000000000000"

  /**
   * What Utils.serialize produces, kept symbolic: only which fields reach the
   * digest matters to this model, never the bytes themselves.
   */
  datatype Serialized =
    | SNull
    | SString(s: string)
    | SList(items: seq<Serialized>)
    | SBlob(filename: string, id: Serialized, content: string)

  /** Utils.sha1 over serialized data: left uninterpreted, it is a parameter of the model. */
  type Sha1 = Serialized -> Id

  datatype Blob = Blob(filename: string, id: Id, content: string)

  /**
   * The constructor Blob(filename) with the file's content already read:
   * `_id` is assigned from Blob.hash, which serializes the object itself while
   * `_id` is still null (the list of fields Blob.hash builds is never used).
   */
  function NewBlob(sha1: Sha1, filename: string, content: string): (b: Blob)
    ensures b.filename == filename && b.content == content
    ensures b.id == sha1(SBlob(filename, SNull, content))
  {
    Blob(filename, sha1(SBlob(filename, SNull, content)), content)
  }

  /**
   * The filename reaches the digest: for the same content under two
   * filenames, some hash function gives the two blobs different ids, so a
   * renamed file is not assumed to share its blob.
   */
  lemma BlobIdCoversFilename(f1: string, f2: string, content: string)
    requires f1 != f2
    ensures exists sha1: Sha1 :: NewBlob(sha1, f1, content).id != NewBlob(sha1, f2, content).id
  {
    var zeros: Id := "0000000000000000000000000000000000000000";
    var ones: Id := "1111111111111111111111111111111111111111";
    var sha1: Sha1 := s => if s == SBlob(f1, SNull, content) then zeros else ones;
    assert NewBlob(sha1, f1, content).id == zeros;
    assert NewBlob(sha1, f2, content).id == ones;
  }

  /** The argument of Blob.equals: either a Blob or some object of another class. */
  datatype BlobOrOther = IsBlob(blob: Blob) | NotBlob

  /** Blob.equals: the same object, or another Blob with the same id. */
  function Equals(b: Blob, o: BlobOrOther): (r: bool)
    ensures o.NotBlob? ==> !r
    ensures o.IsBlob? ==> (r <==> o.blob.id == b.id)
  {
    if o == IsBlob(b) then true
    else if !o.IsBlob? then false
    else b.id == o.blob.id
  }

  /** The hash code both Blob and Commit take from their id: String.hashCode of the id. */
  function IdHashCode(id: Id): (h: int)
    ensures JavaLang.IsInt32(h)
  {
    JavaLang.StringHashCode(id)
  }

  /** Blob.hashCode: the hash code of the id string. */
  function HashCode(b: Blob): (h: int)
    ensures JavaLang.IsInt32(h)
  {
    IdHashCode(b.id)
  }

  /** equals is reflexive. */
  lemma EqualsReflexive(b: Blob)
    ensures Equals(b, IsBlob(b))
  {
  }

  /** Equal blobs have equal hash codes. */
  lemma EqualsImpliesSameHashCode(a: Blob, b: Blob)
    requires Equals(a, IsBlob(b))
    ensures HashCode(a) == HashCode(b)
  {
  }
}
