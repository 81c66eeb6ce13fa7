/**
 * StorageService.buildObjectKey: the object-store key of a document, derived
 * from its public id and a sanitised, lower-cased extension.
 * The put and delete operations of the store are modelled in DocumentServices.
 */
module Storage {
  import opened Wrappers
  import opened JavaText

  const KEY_PREFIX: string := "documents/"

  /** extension.replaceAll("[^a-zA-Z0-9]", ""), with null read as "". */
  function SafeExtension(extension: Option<string>): (safe: string)
    ensures extension.None? ==> safe == ""
    ensures extension.Some? ==> |safe| <= |extension.value|
    ensures forall i :: 0 <= i < |safe| ==> IsAsciiAlnum(safe[i])
  {
    if extension.None? then "" else Filter(extension.value, IsAsciiAlnum)
  }

  function BuildObjectKey(publicId: string, extension: Option<string>): (key: string)
    ensures |key| >= |KEY_PREFIX + publicId| && key[..|KEY_PREFIX + publicId|] == KEY_PREFIX + publicId
    ensures key == KEY_PREFIX + publicId <==> IsBlank(SafeExtension(extension))
  {
    var safeExt := SafeExtension(extension);
    if IsBlank(safeExt) then KEY_PREFIX + publicId
    else KEY_PREFIX + publicId + "." + ToLower(safeExt)
  }

  /** A sanitised extension is blank exactly when it is empty: no character of
      [a-zA-Z0-9] is white space. */
  lemma SafeExtensionBlankIffEmpty(extension: Option<string>)
    ensures IsBlank(SafeExtension(extension)) <==> SafeExtension(extension) == []
  {
    var s := SafeExtension(extension);
    if s != [] {
      assert IsAsciiAlnum(s[0]) && !IsWhitespace(s[0]);
    }
  }

  /** The sanitised extension keeps exactly the [a-zA-Z0-9] characters, in order. */
  lemma {:induction false} SafeExtensionKeepsAlnum(e: string)
    ensures SafeExtension(Some(e)) == Filter(e, IsAsciiAlnum)
    ensures forall c :: c in SafeExtension(Some(e)) <==> c in e && IsAsciiAlnum(c)
  {
    FilterMembers(e, IsAsciiAlnum);
  }

  lemma {:induction false} FilterMembers(s: string, keep: char -> bool)
    ensures forall c :: c in Filter(s, keep) <==> c in s && keep(c)
  {
    if s != [] {
      FilterMembers(s[1..], keep);
      assert s == [s[0]] + s[1..];
    }
  }

  /** The shape of every key: "documents/<id>" when nothing survives
      sanitising, otherwise "documents/<id>.<ext>" with a non-empty ext over
      [a-z0-9]; the public id always follows the prefix verbatim. */
  lemma KeyShape(publicId: string, extension: Option<string>)
    ensures var key := BuildObjectKey(publicId, extension);
            && |key| >= |KEY_PREFIX| + |publicId|
            && key[..|KEY_PREFIX| + |publicId|] == KEY_PREFIX + publicId
            && (SafeExtension(extension) == [] ==> key == KEY_PREFIX + publicId)
            && (SafeExtension(extension) != [] ==>
                  && |key| > |KEY_PREFIX| + |publicId|
                  && var ext := key[|KEY_PREFIX| + |publicId| + 1..];
                  && key == KEY_PREFIX + publicId + "." + ext
                  && ext != []
                  && ext == ToLower(SafeExtension(extension))
                  && forall k :: 0 <= k < |ext| ==> IsLowerAlnum(ext[k]))
  {
    SafeExtensionBlankIffEmpty(extension);
    var key := BuildObjectKey(publicId, extension);
    var safe := SafeExtension(extension);
    if safe != [] {
      var ext := ToLower(safe);
      assert key == KEY_PREFIX + publicId + "." + ext;
      assert key[|KEY_PREFIX| + |publicId| + 1..] == ext;
      forall k | 0 <= k < |ext| ensures IsLowerAlnum(ext[k]) {
        assert IsAsciiAlnum(safe[k]);
      }
    }
  }

  lemma {:induction false} LowerAlnumIsFixed(s: string)
    requires forall k :: 0 <= k < |s| ==> IsLowerAlnum(s[k])
    ensures Filter(s, IsAsciiAlnum) == s && ToLower(s) == s
  {
    FilterKeepsAll(s, IsAsciiAlnum);
  }

  /** Normalisation is idempotent: feeding back the lower-cased sanitised
      extension yields the same key. */
  lemma NormalisationIdempotent(publicId: string, extension: Option<string>)
    ensures BuildObjectKey(publicId, Some(ToLower(SafeExtension(extension))))
            == BuildObjectKey(publicId, extension)
  {
    var safe := SafeExtension(extension);
    var lowered := ToLower(safe);
    assert forall k :: 0 <= k < |lowered| ==> IsLowerAlnum(lowered[k]) by {
      forall k | 0 <= k < |lowered| ensures IsLowerAlnum(lowered[k]) {
        assert IsAsciiAlnum(safe[k]);
      }
    }
    LowerAlnumIsFixed(lowered);
    assert SafeExtension(Some(lowered)) == lowered;
    SafeExtensionBlankIffEmpty(extension);
    SafeExtensionBlankIffEmpty(Some(lowered));
  }

  /** The extension "pdf" gives "documents/<id>.pdf"; "" and null give no dot. */
  lemma KeyExamples(publicId: string)
    ensures BuildObjectKey(publicId, Some("pdf")) == "documents/" + publicId + ".pdf"
    ensures BuildObjectKey(publicId, Some("..")) == "documents/" + publicId
    ensures BuildObjectKey(publicId, None) == "documents/" + publicId
  {
    assert Filter("pdf", IsAsciiAlnum) == "pdf";
    assert Filter("..", IsAsciiAlnum) == "";
  }
}
