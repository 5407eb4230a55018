/**
 * The checks `_handleFileSelect` (grok-code-fast-card.js, lines 985-1015)
 * applies to each file the user picks: the extension, taken from the text
 * after the last dot and lower-cased, must be a key of `ALLOWED_FILES_MAP`
 * (lines 44-55), and the size must not exceed `MAX_FILE_SIZE_BYTES`
 * (line 35). The MIME type is only reported on the console and decides
 * nothing.
 */
module FileRules {
  import opened Wrappers
  import opened Notices
  import Persistence

  const MaxFileSizeBytes: nat := 102400

  /** `ALLOWED_FILES_MAP`: each permitted extension with the MIME types expected for it. */
  const AllowedFiles: map<string, seq<string>> := map[
    ".py" := ["text/x-python", "application/x-python-code"],
    ".yaml" := ["text/yaml", "application/x-yaml"],
    ".yml" := ["text/yaml", "application/x-yaml"],
    ".jinja" := ["text/jinja"],
    ".jinja2" := ["text/jinja2"],
    ".log" := ["text/plain"],
    ".txt" := ["text/plain"],
    ".md" := ["text/markdown"],
    ".js" := ["text/javascript", "application/javascript"],
    ".css" := ["text/css"]
  ]

  /** A picked file: its name, size in bytes, MIME type, and the text `FileReader.readAsText` delivers for it. */
  datatype SelectedFile = SelectedFile(name: string, size: nat, mimeType: string, text: string)

  /** `name.split('.').pop()`: the text after the last dot, or the whole name when it has none. */
  function LastSegment(name: string): (r: string)
    ensures '.' !in r && |r| <= |name|
  {
    if name == [] || name[|name| - 1] == '.' then []
    else LastSegment(name[..|name| - 1]) + [name[|name| - 1]]
  }

  /** The last segment is a dot-free suffix of the name, preceded by a dot unless it is the whole name. */
  lemma {:induction false} LastSegmentShape(name: string)
    ensures var r := LastSegment(name);
      && '.' !in r
      && |r| <= |name| && r == name[|name| - |r|..]
      && (|r| < |name| ==> name[|name| - |r| - 1] == '.')
    decreases |name|
  {
    if name != [] && name[|name| - 1] != '.' {
      var init := name[..|name| - 1];
      LastSegmentShape(init);
      var r := LastSegment(name);
      assert r == LastSegment(init) + [name[|name| - 1]];
      assert name[|name| - |r|..] == init[|name| - |r|..] + [name[|name| - 1]];
    }
  }

  /** `toLowerCase` on the ASCII letters. */
  function LowerChar(c: char): (d: char)
    ensures 'A' <= c <= 'Z' ==> d as int == c as int + 32
    ensures !('A' <= c <= 'Z') ==> d == c
  {
    if 'A' <= c <= 'Z' then (c as int + 32) as char else c
  }

  function Lower(s: string): (r: string)
    ensures |r| == |s| && forall k :: 0 <= k < |s| ==> r[k] == LowerChar(s[k])
  {
    seq(|s|, k requires 0 <= k < |s| => LowerChar(s[k]))
  }

  /**
   * The extension looked up in the map (line 990): a dot, then the last
   * segment of the name lower-cased, which holds no further dot.
   */
  function Extension(name: string): (r: string)
    ensures |r| == |LastSegment(name)| + 1 && r[0] == '.' && '.' !in r[1..]
    ensures forall k :: 1 <= k < |r| ==> !('A' <= r[k] <= 'Z')
  {
    "." + Lower(LastSegment(name))
  }

  /** `ALLOWED_FILES_MAP[extension] || []`. */
  function AllowedMimes(ext: string): (r: seq<string>)
    ensures ext in AllowedFiles ==> r == AllowedFiles[ext] && |r| > 0
    ensures ext !in AllowedFiles ==> r == []
  {
    if ext in AllowedFiles then AllowedFiles[ext] else []
  }

  /** What the checks decide for one file. */
  datatype Verdict = Accept | RejectType | RejectSize

  /**
   * The two checks in the source's order (lines 993-1001): an extension with
   * no MIME list is refused first, then a file over the size limit.
   */
  function Check(f: SelectedFile): Verdict
  {
    var mimes := AllowedMimes(Extension(f.name));
    if |mimes| == 0 then RejectType
    else if f.size > MaxFileSizeBytes then RejectSize
    else Accept
  }

  /** A file is refused for its type exactly when its extension is not allowed, and otherwise for its size exactly when it is over the limit. */
  lemma CheckCases(f: SelectedFile)
    ensures Check(f) == RejectType <==> Extension(f.name) !in AllowedFiles
    ensures Check(f) == RejectSize <==> Extension(f.name) in AllowedFiles && f.size > MaxFileSizeBytes
    ensures Check(f) == Accept <==> Extension(f.name) in AllowedFiles && f.size <= MaxFileSizeBytes
  {
  }

  /** The limit as the message prints it: `MAX_FILE_SIZE_BYTES / 1024`. */
  function MaxFileSizeKb(): (k: nat)
    ensures k * 1024 == MaxFileSizeBytes
  {
    MaxFileSizeBytes / 1024
  }

  /** The error banner for a refused file. */
  function RejectionNotice(f: SelectedFile, v: Verdict): (n: Notice)
    requires v != Accept
    ensures n.level == Error && n.durationMs == 7500
  {
    if v == RejectType then Banner("File type not allowed: " + f.name, Error)
    else Banner("File is too large: " + f.name + " (max " + NatToString(MaxFileSizeKb()) + "KB)", Error)
  }

  /** The banner names the file and, for a file over the limit, the limit in KB. */
  lemma RejectionMessages(f: SelectedFile, v: Verdict)
    requires v != Accept
    ensures v == RejectType ==> RejectionNotice(f, v).message == "File type not allowed: " + f.name
    ensures v == RejectSize ==>
      RejectionNotice(f, v).message == "File is too large: " + f.name + " (max " + NatToString(100) + "KB)"
  {
  }

  /** The pending attachment an accepted file becomes once it has been read. */
  function ToAttachment(f: SelectedFile): (a: Persistence.Attachment)
    ensures a.filename == f.name && a.content == Some(f.text) && a.contentLength.None?
  {
    Persistence.Attachment(f.name, Some(f.text), None)
  }

  /** The attachments a selection adds, in the order the files were picked. */
  function Accepted(files: seq<SelectedFile>): (r: seq<Persistence.Attachment>)
    ensures |r| <= |files|
  {
    if files == [] then []
    else
      var f := files[|files| - 1];
      Accepted(files[..|files| - 1]) + (if Check(f) == Accept then [ToAttachment(f)] else [])
  }

  /** The banners a selection shows, one per refused file, in order. */
  function Rejections(files: seq<SelectedFile>): (r: seq<Notice>)
    ensures |r| <= |files|
  {
    if files == [] then []
    else
      var f := files[|files| - 1];
      var v := Check(f);
      Rejections(files[..|files| - 1]) + (if v != Accept then [RejectionNotice(f, v)] else [])
  }

  /** A file that passes the checks has an allowed extension and is no larger than the limit. */
  lemma AcceptMeansAllowed(f: SelectedFile)
    requires Check(f) == Accept
    ensures Extension(f.name) in AllowedFiles && f.size <= MaxFileSizeBytes
  {
  }

  /** Every attachment a selection adds carries the contents of a file with an allowed extension. */
  lemma {:induction false} AcceptedAreAllowed(files: seq<SelectedFile>)
    ensures forall k :: 0 <= k < |Accepted(files)| ==>
      Extension(Accepted(files)[k].filename) in AllowedFiles && Accepted(files)[k].content.Some?
    decreases |files|
  {
    if files != [] {
      var f := files[|files| - 1];
      AcceptedAreAllowed(files[..|files| - 1]);
      if Check(f) == Accept {
        AcceptMeansAllowed(f);
      }
    }
  }

  /** Every banner a selection shows is an error. */
  lemma {:induction false} RejectionsAreErrors(files: seq<SelectedFile>)
    ensures forall k :: 0 <= k < |Rejections(files)| ==> Rejections(files)[k].level == Error
    decreases |files|
  {
    if files != [] {
      RejectionsAreErrors(files[..|files| - 1]);
    }
  }

  /** A selection in which every file is refused adds no attachment. */
  lemma {:induction false} AllRefusedAddsNothing(files: seq<SelectedFile>)
    requires forall j :: 0 <= j < |files| ==> Check(files[j]) != Accept
    ensures Accepted(files) == []
    decreases |files|
  {
    if files != [] {
      var init := files[..|files| - 1];
      assert forall j :: 0 <= j < |init| ==> Check(init[j]) != Accept by {
        forall j | 0 <= j < |init| ensures Check(init[j]) != Accept {
          assert init[j] == files[j];
        }
      }
      AllRefusedAddsNothing(init);
    }
  }

  /** A selection in which every file is accepted shows no banner. */
  lemma {:induction false} AllAcceptedShowsNothing(files: seq<SelectedFile>)
    requires forall j :: 0 <= j < |files| ==> Check(files[j]) == Accept
    ensures Rejections(files) == []
    decreases |files|
  {
    if files != [] {
      var init := files[..|files| - 1];
      assert forall j :: 0 <= j < |init| ==> Check(init[j]) == Accept by {
        forall j | 0 <= j < |init| ensures Check(init[j]) == Accept {
          assert init[j] == files[j];
        }
      }
      AllAcceptedShowsNothing(init);
    }
  }

  /** Each accepted file becomes one of the attachments. */
  lemma {:induction false} AcceptedFileIsAttached(files: seq<SelectedFile>, j: nat)
    requires j < |files| && Check(files[j]) == Accept
    ensures ToAttachment(files[j]) in Accepted(files)
    decreases |files|
  {
    var init := files[..|files| - 1];
    if j < |files| - 1 {
      assert init[j] == files[j];
      AcceptedFileIsAttached(init, j);
    }
  }

  /** Each refused file shows its banner. */
  lemma {:induction false} RefusedFileIsReported(files: seq<SelectedFile>, j: nat)
    requires j < |files| && Check(files[j]) != Accept
    ensures RejectionNotice(files[j], Check(files[j])) in Rejections(files)
    decreases |files|
  {
    var init := files[..|files| - 1];
    if j < |files| - 1 {
      assert init[j] == files[j];
      RefusedFileIsReported(init, j);
    }
  }

  /** Every picked file is either attached or refused with a banner, never both and never neither. */
  lemma {:induction false} EachFileAttachedOrRefused(files: seq<SelectedFile>)
    ensures |Accepted(files)| + |Rejections(files)| == |files|
    decreases |files|
  {
    if files != [] {
      EachFileAttachedOrRefused(files[..|files| - 1]);
    }
  }

  /** A name without a dot is its own extension: a file named `py` counts as `.py`. */
  lemma NameWithoutDotIsItsOwnExtension(name: string)
    requires '.' !in name
    ensures Extension(name) == "." + Lower(name)
  {
    LastSegmentShape(name);
  }

  /**
   * Only the text after the last dot decides: `archive.tar.gz` has the
   * extension `.gz`, and case does not matter.
   */
  lemma {:induction false} ExtensionAfterLastDot(base: string, ext: string)
    requires '.' !in ext
    ensures Extension(base + "." + ext) == "." + Lower(ext)
  {
    var name := base + "." + ext;
    LastSegmentShape(name);
    var r := LastSegment(name);
    assert forall k :: |name| - |r| <= k < |name| ==> name[k] != '.';
    assert name[|base|] == '.';
    assert name[|name| - |ext|..] == ext;
  }

  /** A small file whose name ends in an allowed extension, in any case, is accepted whatever its MIME type. */
  lemma SmallPythonFileAccepted(base: string, size: nat, mimeType: string, text: string)
    requires size <= MaxFileSizeBytes
    ensures Check(SelectedFile(base + ".PY", size, mimeType, text)) == Accept
  {
    assert base + ".PY" == base + "." + "PY";
    ExtensionAfterLastDot(base, "PY");
    CheckCases(SelectedFile(base + ".PY", size, mimeType, text));
    assert Lower("PY") == "py";
    assert Extension(base + ".PY") == ".py";
    assert ".py" in AllowedFiles;
  }

  /** One more file adds its attachment, if it is accepted. */
  lemma AcceptedStep(files: seq<SelectedFile>, i: nat)
    requires i < |files|
    ensures Accepted(files[..i + 1]) ==
      Accepted(files[..i]) + (if Check(files[i]) == Accept then [ToAttachment(files[i])] else [])
  {
    assert files[..i + 1][..i] == files[..i];
  }

  /** One more file adds its banner, if it is refused. */
  lemma RejectionsStep(files: seq<SelectedFile>, i: nat)
    requires i < |files|
    ensures Rejections(files[..i + 1]) ==
      Rejections(files[..i]) + (if Check(files[i]) != Accept then [RejectionNotice(files[i], Check(files[i]))] else [])
  {
    assert files[..i + 1][..i] == files[..i];
  }
}
