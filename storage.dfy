/** The image upload (src/lib/supabase/storage.ts): the file is stored in the `avatars`
    bucket under a fresh name made of a random identifier and the original extension,
    without overwriting, and its public address is returned. The random identifier, the
    storage service's failures and the public address it hands back are inputs. */
module Storage {
  import opened Wrappers
  import opened Text

  const UploadErrorPrefix: string := "Supabase upload error: "
  const NoPublicUrlMessage: string := "Não foi possível obter a URL pública da imagem."

  datatype File = File(name: string, content: seq<bv8>)

  /** The last piece of splitting `name` at the dots: the text after the last dot, or the
      whole name when it has no dot. */
  function Extension(name: string): (ext: string)
    ensures '.' !in ext
    ensures '.' !in name ==> ext == name
    ensures '.' in name ==>
      |ext| < |name| && name[|name| - |ext| - 1] == '.' && name[|name| - |ext|..] == ext
  {
    var pieces := Split(name, '.');
    LastPieceIsSuffix(name, '.');
    pieces[|pieces| - 1]
  }

  /** The last piece of a split ends the text; when the text holds the separator, the
      piece is preceded by one, and otherwise it is the whole text. */
  lemma {:induction false} LastPieceIsSuffix(s: string, sep: char)
    ensures var last := Split(s, sep)[|Split(s, sep)| - 1];
      && |last| <= |s| && s[|s| - |last|..] == last
      && (sep !in s ==> last == s)
      && (sep in s ==> |last| < |s| && s[|s| - |last| - 1] == sep)
  {
    if s != [] {
      var rest := Split(s[1..], sep);
      var r := Split(s, sep);
      LastPieceIsSuffix(s[1..], sep);
      if s[0] == sep {
        assert r == [""] + rest;
      } else if |rest| == 1 {
        SplitJoin(s[1..], sep);
        assert rest[0] == s[1..];
        assert r == [[s[0]] + s[1..]];
        assert [s[0]] + s[1..] == s;
      } else {
        assert r == [[s[0]] + rest[0]] + rest[1..];
        if sep !in s[1..] {
          SplitWithoutSeparator(s[1..], sep);
        }
      }
    }
  }

  /** The stored object's name: the random identifier, a dot, and the extension. */
  function StoredName(uuid: string, name: string): string
  {
    uuid + "." + Extension(name)
  }

  /** A text without the separator splits into itself. */
  lemma {:induction false} SplitWithoutSeparator(s: string, sep: char)
    requires sep !in s
    ensures Split(s, sep) == [s]
  {
    if s != [] {
      SplitWithoutSeparator(s[1..], sep);
      assert [s[0]] + s[1..] == s;
    }
  }

  /** Splitting at one separator splits each side on its own. */
  lemma {:induction false} SplitAtSeparator(a: string, b: string, sep: char)
    ensures Split(a + [sep] + b, sep) == Split(a, sep) + Split(b, sep)
  {
    if a == [] {
      assert a + [sep] + b == [sep] + b;
      assert ([sep] + b)[1..] == b;
    } else {
      var s := a + [sep] + b;
      assert s[0] == a[0];
      assert s[1..] == a[1..] + [sep] + b;
      SplitAtSeparator(a[1..], b, sep);
    }
  }

  /** The stored file keeps the original extension, provided the identifier has no dot
      (a version-4 UUID is hexadecimal digits and hyphens). */
  lemma StoredNameKeepsExtension(uuid: string, name: string)
    requires '.' !in uuid
    ensures Extension(StoredName(uuid, name)) == Extension(name)
    ensures Split(StoredName(uuid, name), '.') == [uuid, Extension(name)]
  {
    var ext := Extension(name);
    assert StoredName(uuid, name) == uuid + ['.'] + ext;
    SplitAtSeparator(uuid, ext, '.');
    SplitWithoutSeparator(uuid, '.');
    SplitWithoutSeparator(ext, '.');
  }

  /** The `avatars` bucket: stored objects by path. */
  class Bucket {
    var objects: map<string, seq<bv8>>

    constructor ()
      ensures objects == map[]
    {
      objects := map[];
    }

    /** `upload(filePath, file, { upsert: false })`: an existing path is refused, as is
        any upload the service reports as failed. */
    method Upload(path: string, content: seq<bv8>, fault: bool) returns (stored: bool)
      modifies this
      ensures stored <==> !fault && path !in old(objects)
      ensures stored ==> objects == old(objects)[path := content]
      ensures !stored ==> objects == old(objects)
    {
      if fault || path in objects {
        return false;
      }
      objects := objects[path := content];
      return true;
    }

    /** `uploadImage`: the public address of the newly stored file, or the error that is
        thrown. Nothing already in the bucket is ever replaced. */
    method UploadImage(file: File, uuid: string, fault: bool, serviceMessage: string,
                       publicUrl: Option<string>)
      returns (r: Result<string, string>)
      modifies this
      ensures var path := StoredName(uuid, file.name);
        && (fault || path in old(objects) ==>
              r == Err(UploadErrorPrefix + serviceMessage) && objects == old(objects))
        && (!fault && path !in old(objects) ==>
              objects == old(objects)[path := file.content]
              && r == (if publicUrl.Some? then Ok(publicUrl.value) else Err(NoPublicUrlMessage)))
      ensures forall p :: p in old(objects) ==> p in objects && objects[p] == old(objects)[p]
    {
      var fileExtension := Extension(file.name);
      var filePath := uuid + "." + fileExtension;
      var stored := Upload(filePath, file.content, fault);
      if !stored {
        return Err(UploadErrorPrefix + serviceMessage);
      }
      if publicUrl.None? {
        return Err(NoPublicUrlMessage);
      }
      return Ok(publicUrl.value);
    }
  }
}
