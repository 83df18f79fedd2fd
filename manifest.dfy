/** The metadata record kept for every exposed file, and the manifest that
    lists them. Writing the manifest as JSON is not part of this model. */
module Manifest {

  /** A time.Time: an instant, counted in nanoseconds from the Unix epoch,
      and the location it is displayed in. */
  datatype Time = Time(instant: int, location: string)

  /** t.UTC(): the same instant, displayed in UTC. */
  function UTC(t: Time): Time
  {
    Time(t.instant, "UTC")
  }

  /** One eligible file: its base name in the folder, the sniffed MIME type,
      its size in bytes and its modification time. Go declares the size as
      an int64; file sizes are never negative, so it is a nat here. */
  datatype FileEntry = FileEntry(name: string, mimeType: string, size: nat, lastModified: Time)

  /** The manifest: the scanned records, in scan order. */
  datatype Manifest = Manifest(files: seq<FileEntry>)
}
