/** Concrete folders and calls: a folder holding hello.txt and image.png,
    a sub-directory beside a file, an oversized file, and the allow-list's
    verdicts on common MIME types. */
module Scenarios {
  import opened Common
  import opened Manifest
  import opened Scanner
  import opened Server

  /** The 11 bytes of "hello world". */
  const HelloBytes: seq<byte> := [104, 101, 108, 108, 111, 32, 119, 111, 114, 108, 100]

  /** The PNG signature. */
  const PngBytes: seq<byte> := [0x89, 0x50, 0x4E, 0x47, 0x0D, 0x0A, 0x1A, 0x0A]

  /** What http.DetectContentType answers for plain ASCII text. */
  const PlainText := "text/plain; charset=utf-8"

  /** A regular file whose metadata and first read succeed. */
  function RegularFile(name: string, content: seq<byte>, modTime: Time): DirEntry
  {
    DirEntry(name, false, Some(FileInfo(|content|, modTime)), Some(FirstRead(content)))
  }

  lemma IsBinaryVerdicts()
    ensures !IsBinary("text/plain") && !IsBinary("text/html") && !IsBinary(PlainText)
    ensures !IsBinary("application/json") && !IsBinary("application/xml")
    ensures !IsBinary("application/javascript") && !IsBinary("application/x-yaml")
    ensures IsBinary("application/octet-stream") && IsBinary("image/png") && IsBinary("application/pdf")
    ensures IsBinary("application/yaml") && IsBinary("Text/plain") && IsBinary("")
  {
    assert "text/plain"[..5] == "text/";
    assert "text/html"[..5] == "text/";
    assert PlainText[..5] == "text/";
    assert "Text/plain"[..5][0] != "text/"[0];
  }

  /** The text handed back for the bytes of "hello world". */
  lemma HelloText()
    ensures BytesToText(HelloBytes) == "hello world"
  {
    var t := BytesToText(HelloBytes);
    var w := "hello world";
    assert forall i :: 0 <= i < 11 ==> w[i] as int == HelloBytes[i] as int;
    assert forall i :: 0 <= i < 11 ==> t[i] == w[i];
  }

  /** hello.txt and image.png: only hello.txt is listed, as text/plain, 11 bytes. */
  lemma HelloAndPngScan(detect: seq<byte> -> string, t1: Time, t2: Time)
    requires detect(HelloBytes) == PlainText && detect(PngBytes) == "image/png"
    ensures Eligible([RegularFile("hello.txt", HelloBytes, t1), RegularFile("image.png", PngBytes, t2)], detect)
            == [FileEntry("hello.txt", PlainText, 11, UTC(t1))]
  {
    IsBinaryVerdicts();
    var hello := RegularFile("hello.txt", HelloBytes, t1);
    var png := RegularFile("image.png", PngBytes, t2);
    assert FirstRead(HelloBytes).data == HelloBytes;
    assert FirstRead(PngBytes).data == PngBytes;
    assert Admit(png, detect).None?;
    assert Admit(hello, detect) == Some(FileEntry("hello.txt", PlainText, 11, UTC(t1)));
    assert [hello, png][..1] == [hello];
    assert [hello][..0] == [];
  }

  /** With only hello.txt listed, read_file("image.png") is "file not
      found" and reads nothing. */
  lemma UnlistedPngIsNotFound(folder: string, t1: Time, resolve: (string, string) -> string, fs: FileSystem)
    ensures ReadFileResponse(folder, [FileEntry("hello.txt", PlainText, 11, UTC(t1))],
                             map["name" := StringArg("image.png")], resolve, fs)
            == Response(ToolResult(true, "file not found: image.png"), None)
  {
    var files := [FileEntry("hello.txt", PlainText, 11, UTC(t1))];
    assert !Listed(files, "image.png") by {
      assert "hello.txt"[0] != "image.png"[0];
    }
    assert RequireString(map["name" := StringArg("image.png")], "name") == Some("image.png");
  }

  /** read_file("hello.txt") answers "hello world". */
  lemma ListedHelloIsRead(folder: string, t1: Time, resolve: (string, string) -> string, fs: FileSystem)
    requires resolve(folder, "hello.txt") in fs && fs[resolve(folder, "hello.txt")] == Ok(HelloBytes)
    ensures ReadFileResponse(folder, [FileEntry("hello.txt", PlainText, 11, UTC(t1))],
                             map["name" := StringArg("hello.txt")], resolve, fs)
            == Response(ToolResult(false, "hello world"), Some(resolve(folder, "hello.txt")))
  {
    var files := [FileEntry("hello.txt", PlainText, 11, UTC(t1))];
    assert Listed(files, "hello.txt") by {
      assert files[0].name == "hello.txt";
    }
    assert RequireString(map["name" := StringArg("hello.txt")], "name") == Some("hello.txt");
    HelloText();
  }

  /** A sub-directory next to a file, listed by name: only the file is listed. */
  lemma DirectoryIsSkipped(detect: seq<byte> -> string, content: seq<byte>, t: Time, info: Option<FileInfo>,
                           sniff: Option<SniffRead>)
    requires |content| <= MaxFileSize && content != []
    requires detect(FirstRead(content).data) == PlainText
    ensures |Eligible([RegularFile("file.txt", content, t), DirEntry("subdir", true, info, sniff)], detect)| == 1
  {
    IsBinaryVerdicts();
    var entries := [RegularFile("file.txt", content, t), DirEntry("subdir", true, info, sniff)];
    assert entries[..1] == [entries[0]];
    assert entries[..1][..0] == [];
  }

  /** A file one byte over the ceiling is not listed, whatever it holds. */
  lemma OversizedIsSkipped(detect: seq<byte> -> string, content: seq<byte>, t: Time)
    requires |content| == MaxFileSize + 1
    ensures Eligible([RegularFile("big.txt", content, t)], detect) == []
  {
    var entries := [RegularFile("big.txt", content, t)];
    assert entries[..0] == [];
  }
}
