# utilMCP folder exposure engine — a Dafny model

utilMCP is a read-only MCP server. It exposes the files of one folder to a
client. At startup it scans the folder's top-level entries once. It keeps
only non-directory entries of at most 10 MiB whose sniffed MIME type is
text-like.
It then serves that fixed list in two ways:

- a resource per file, addressed `file:///<absolute path>`;
- two tools: `list_files` (the whole list, serialised) and `read_file`
  (a file's current bytes, by exact name).

This project models that core in Dafny and proves the promises it makes:

- the scan is an order-preserving selection of exactly the eligible entries,
  so a listing sorted by name gives records sorted by name;
- the allow-list is exact;
- the size ceiling is inclusive;
- `read_file` reads only the resolved path of a name already in the list,
  and returns the bytes verbatim.

Files:

- `common.dfy`: `Option`, `Result`, bytes, `strings.HasPrefix`, Go's
  `string(data)` and the `%d` rendering of sizes.
- `manifest.dfy`: the `FileEntry` record and the `Manifest` shape.
- `scanner.dfy`: `ScanFolder`, `detectMIME`, `isBinary`, the specification
  `Eligible` of a scan, and the lemmas about it.
- `server.dfy`: `registerResources`, the resource read handler,
  `list_files`, `read_file`, and the agreement of the two surfaces.
- `scenarios.dfy`: concrete folders as lemmas, among them a folder holding
  `hello.txt` and `image.png`.

Inputs that are I/O or foreign code become values or parameters:

- The directory listing is a `Result` of `DirEntry` values. Each entry carries:
  - the outcome of `e.Info()`;
  - the outcome of opening the file and doing one `Read` into the 512-byte
    sniff buffer. The type bounds that read at 512 bytes.
- `http.DetectContentType` is the function parameter `detect`. Nothing is
  assumed about it.
- `filepath.Abs(filepath.Join(folder, name))` is the parameter `resolve`. The
  server discards its error, so it is a total function.
- `json.MarshalIndent` is the parameter `marshal`. It may fail.
- The filesystem at request time is a map from path to what `os.ReadFile`
  returns. A missing key gives Go's `open <path>: no such file or directory`.
  Because reads happen at request time, the model serves a file's current
  bytes, not a snapshot taken at scan time.
- `read_file` also returns the path it read, if any. The containment
  property is stated about that path.

The code drops every empty file, not only unreadable ones: `detectMIME`
fails when the first read returns no bytes together with an error, and an
empty file's first read returns `io.EOF` (`Scanner.EmptyFileIsExcluded`).

## Model

| member | source | states |
|---|---|---|
| `Scanner.ScanFolder` | src/scanner.go:14-54 | A failed listing is returned as the same error, with no list. Otherwise the result is `Ok(Eligible(entries))`: the loop with its `continue` guards builds exactly the specification. A listing sorted by name gives records strictly increasing by name. |
| `Scanner.Eligible` | src/scanner.go:20-51 | The scan never yields more records than there are entries. |
| `Scanner.Picks` | src/scanner.go:21-51 | The positions of the admitted entries are in range and strictly increasing. A position is picked if and only if its entry passes every guard. |
| `Scanner.EligibleIsOrderedSelection` | src/scanner.go:21-51 | Record k is the record of entry `Picks[k]`, and there is one record per pick. So the output is the order-preserving subsequence of passing entries, with no reordering or duplication. |
| `Scanner.EligibleRecordsAreSound` | src/scanner.go:41-50 | Every record is named after a non-directory entry, is at most `MaxFileSize` bytes, and has a MIME type for which `IsBinary` is false. |
| `Scanner.SortedNamesAreDistinct` | src/scanner.go:15 | A listing sorted by name, as `os.ReadDir` returns it, has distinct names. |
| `Scanner.EligibleSortedByName` | src/scanner.go:15-51 | When the listing is sorted by name, the records are strictly increasing by name (Go's byte-wise string order). |
| `Scanner.EligibleNamesDistinct` | src/scanner.go:21-51 | If the entry names are distinct, so are the record names. |
| `Scanner.EligibleListsEachFileOnce` | src/scanner.go:21-51 | With distinct names, an admitted entry's record appears in the output. An entry that is not admitted (a directory among them) has no record with its name. |
| `Scanner.Admit` | src/scanner.go:22-50 | Soundness: a record means the entry was not a directory, its metadata was read, and it kept the entry's name, size and UTC modification time. It also means the size is at most the ceiling and the MIME type is the sniffed one and not binary. Completeness: every entry meeting all of that gets a record. |
| `Scanner.SizeCeilingIsInclusive` | src/scanner.go:9 | `MaxFileSize` is 10485760. A text-like non-directory entry is admitted if and only if its size is at most that, so exactly that size passes and one byte more does not. |
| `Scanner.EntryFailuresAreSilent` | src/scanner.go:22-39 | A directory, an entry whose metadata cannot be read, or a file that cannot be opened only drops that entry. |
| `Scanner.DetectMIME` | src/scanner.go:58-72 | Sniffing fails exactly when the open fails or the read returned zero bytes together with an error. Otherwise it is `detect` of the bytes read, which are at most 512. |
| `Scanner.FirstRead` | src/scanner.go:65-66 | The first read of a regular file yields its first min(512, size) bytes, with an error exactly when the file is empty. |
| `Scanner.EmptyFileIsExcluded` | src/scanner.go:66-69 | An empty file's sniff fails, so it is never exposed. |
| `Scanner.SniffSeesOnlyPrefix` | src/scanner.go:65-71 | Two files that agree on their first 512 bytes get the same MIME type, which is `detect` of those 512 bytes. |
| `Scanner.PartialReadIsSniffed` | src/scanner.go:66-71 | A read that returns bytes together with an error is still sniffed. |
| `Scanner.IsBinary` | src/scanner.go:75-81 | A MIME type is not binary if and only if it starts with `text/` or is one of `application/json`, `application/xml`, `application/javascript`, `application/x-yaml`. |
| `Scenarios.IsBinaryVerdicts` | src/scanner_test.go:94-114 | `text/plain`, `text/html`, `text/plain; charset=utf-8` and the four application types are text. `application/octet-stream`, `image/png`, `application/pdf`, `application/yaml` and `Text/plain` are binary: matching is case-sensitive. |
| `Scenarios.HelloAndPngScan` | src/scanner_test.go:9-50 | A folder with `hello.txt` and a PNG yields one record: `hello.txt`, `text/plain; charset=utf-8`, 11 bytes. |
| `Scenarios.DirectoryIsSkipped` | src/scanner_test.go:74-92 | A sub-directory next to a text file yields one record. |
| `Scenarios.OversizedIsSkipped` | src/scanner_test.go:52-72 | A file of `MaxFileSize + 1` bytes yields no record, whatever it holds. |
| `Server.RegisterResources` | src/server.go:42-56 | There is one registration per record, in list order. Its URI is `file:///` followed by the resolved path of the record's name. Its display name is the record's name, its description is `File: <name> (<mime>, <size> bytes)`, and its declared MIME type is the record's. Its handler reads that same resolved path. |
| `Common.DecimalRoundTrip` | src/server.go:50 | The size printed in the description by `%d` denotes the size, with no leading zero. |
| `Server.ReadResource` | src/server.go:58-73 | The resource handler reads its path afresh. On success it answers with exactly one item, carrying the request's URI and `text/plain` whatever MIME type was declared, and the file's bytes verbatim. A failed read is an error `failed to read <path>: <error>`. |
| `Server.ListFiles` | src/server.go:81-87 | `list_files` serialises the whole list with nothing filtered out. The result is an error (`failed to serialize file list`) exactly when serialisation fails. |
| `Server.RequireString` | src/server.go:96-99 | The name is available exactly when the `name` argument is present and is a string. |
| `Server.ReadFileResponse` | src/server.go:95-120 | Containment: any path read is the resolved path of a listed record's name. The filesystem is read if and only if a name is given and some record has exactly that name. A missing name gives `missing required parameter: name`, and an unlisted name gives `file not found: <name>`; neither reads anything. A failed read gives `failed to read file: <error>`. Success gives the bytes verbatim. |
| `Server.ReadFile` | src/server.go:95-120 | The handler's `found` search loop, with `break`, and its single read produce exactly `ReadFileResponse`. |
| `Server.ResourceAndToolAgree` | src/server.go:43-55 | Reading the resource registered for a record and calling `read_file` with its name read the same path. They succeed together and, on success, return the same text. |
| `Common.BytesToTextRoundTrip` | src/server.go:119 | `string(data)` keeps every byte: the bytes can be read back from the text unchanged. |
| `Scenarios.UnlistedPngIsNotFound` | src/server.go:109-111 | With only `hello.txt` listed, `read_file("image.png")` answers `file not found: image.png` and reads nothing. |
| `Scenarios.ListedHelloIsRead` | src/server.go:113-119 | `read_file("hello.txt")` answers `hello world` after reading the resolved path of `hello.txt`. |

## Left out

- `src/main.go` is not part of this model: flag parsing, the folder check, fatal exits, the banner and the stdio transport are process plumbing.
- `WriteManifest` (src/manifest.go:24-30) is JSON marshalling and a file write. Only the `FileEntry` and `Manifest` shapes are modelled.
- `http.DetectContentType` internals: content sniffing is a foreign algorithm, so it is the arbitrary function `detect`.
- `filepath.Abs` and `filepath.Join` depend on the process's working directory, so they are the arbitrary function `resolve`. `time.Time` is an instant plus a location, and `UTC()` only changes the location.
- `json.MarshalIndent` is the arbitrary function `marshal`, so the JSON text of `list_files` is not modelled. When nothing is eligible, Go's `files` stays a nil slice, which serialises as `null` rather than `[]`; a `seq` does not tell the two apart.
- Server construction, capability flags, tool schemas and tool dispatch by name belong to the mcp-go library and are not modelled.
- The monitoring hooks (src/server.go:23-32) only write log lines and change nothing, so they are not modelled.
- Concurrent serving is not modelled: requests share only immutable data.
- Scanner.ScanFolder: the path `dir + "/" + name` used to open a file is not modelled. Each entry carries its own open and read outcome.
- Non-regular entries: only directories are skipped, so symlinks, FIFOs, sockets and devices reach the later steps. `e.Info()` is an Lstat, so the size ceiling applies to the entry's own size (for a symlink, the link's length), while the sniff open and `os.ReadFile` follow the link. The model's containment is about the path string read, not about the file a symlink leads to. A blocking open (of a FIFO) is not modelled.
- File sizes: Go's `int64` size is a `nat`. Negative sizes cannot occur for files, and records are at most 10 MiB.
- Server.ReadFile: its contract does not state that the search stops at the first match. The result does not depend on where it stops.
- Read errors: `os.ReadFile` errors other than a missing file are whatever the filesystem map records for the path. Their Go wording is not modelled.
