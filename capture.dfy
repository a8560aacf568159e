/**
 * A capture folder as the player finds it on disk: whether the folder exists
 * and, for each of the four files it needs, its contents if the file exists.
 * Binary files are byte sequences; text files are their lines.
 */
module CaptureFolder {
  import opened Bytes
  import opened Osc

  datatype Capture = Capture(
    folderExists: bool,
    dataFile: Option<seq<byte>>,    // data.bin
    typeFile: Option<seq<string>>,  // type.txt
    stringFile: Option<seq<string>>, // string.txt
    timeFile: Option<seq<byte>>)    // time.bin
}
