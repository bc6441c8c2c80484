/**
 * HiddenFile: the payload record the embedders carry, a file's bytes with
 * its name and size; CipherFile replaces the bytes by their ciphered copy.
 */
module HiddenFile {
  import opened Machine
  import opened FileCipher
  import opened Frames

  class HiddenFile {
    var filename: seq<char>
    var file: array<byte>
    var size: int

    /** The size is the length of the bytes. */
    ghost predicate Valid()
      reads this
    {
      file.Length == size
    }

    /** new HiddenFile(file, filename): the array itself is stored, not a copy. */
    constructor (file: array<byte>, filename: seq<char>)
      ensures Valid() && this.file == file && this.filename == filename && size == file.Length
    {
      this.file := file;
      this.filename := filename;
      size := file.Length;
    }

    /**
     * CipherFile(seed): File = FileCipher.CipherFile(File, seed). done is
     * false when the pad loop ran out of fuel; the file is then left as it was.
     */
    method CipherFile(seed: int, cipher: FileCipher, fuel: nat) returns (done: bool)
      requires Valid() && cipher.Valid()
      modifies this, cipher
      ensures Valid() && cipher.Valid() && cipher.seed == seed
      ensures filename == old(filename) && size == old(size)
      ensures done <==> PadReady(old(cipher.pad.Length), old(cipher.x), old(file.Length), fuel)
      ensures done ==> fresh(file) && file[..] == old(file[..]) && size <= cipher.pad.Length
      ensures !done ==> file == old(file)
    {
      var ciphered := cipher.CipherFile(file, seed, fuel);
      if ciphered.None? {
        return false;
      }
      file := ciphered.value;
      return true;
    }
  }

  /** The try block of the file decoders after the tape: decode, then new HiddenFile and CipherFile(key). */
  method RecoverFile(t: Tape, key: int, cipher: FileCipher, fuel: nat)
    returns (r: Outcome<Option<HiddenFile>>)
    requires cipher.Valid()
    modifies cipher
    ensures cipher.Valid()
    ensures DecodeFile(t).Exception? ==> r == Value(None)
    ensures DecodeFile(t).Diverges? ==> r == Diverges
    ensures DecodeFile(t).Value? && !PadReady(old(cipher.pad.Length), old(cipher.x), |DecodeFile(t).value.1|, fuel) ==> r == Diverges
    ensures DecodeFile(t).Value? && PadReady(old(cipher.pad.Length), old(cipher.x), |DecodeFile(t).value.1|, fuel) ==>
      && r.Value? && r.value.Some? && fresh(r.value.value) && r.value.value.Valid()
      && r.value.value.filename == DecodeFile(t).value.0 && r.value.value.file[..] == DecodeFile(t).value.1
      && cipher.seed == key
  {
    var decoded := DecodeFileLoop(t);
    if decoded.Exception? {
      return Value(None);
    }
    if decoded.Diverges? {
      return Diverges;
    }
    var (filename, file) := decoded.value;
    var f := new HiddenFile(file, filename);
    var done := f.CipherFile(key, cipher, fuel);
    if !done {
      return Diverges;
    }
    return Value(Some(f));
  }
}
