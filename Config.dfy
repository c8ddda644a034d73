/** The job configuration record (models.py `JobConfig`). */
module Config {
  import opened Text

  datatype VideoType = Yasya | Pornhub

  datatype JobConfig = JobConfig(
    baseFolderUrl: string,
    saveDir: string,
    outName: string,
    videoType: VideoType,
    start: nat,                             // first index when auto-detection is off
    zeroPad: int,                           // `zfill` width of the index
    end: Option<nat>,                       // last index, or unknown
    stopAfterN404: int,                     // consecutive failures that end an unknown range
    retry: int,                             // attempts per segment
    timeout: int,                           // seconds per request (not modelled)
    headers: Option<map<string, string>>,
    autoDetect: bool
  )

  /** A configuration with the record's defaults for everything but the
      three fields it requires. */
  function NewJob(baseFolderUrl: string, saveDir: string, outName: string): (c: JobConfig)
    ensures c.baseFolderUrl == baseFolderUrl && c.saveDir == saveDir && c.outName == outName
    ensures c.start == 1 && c.zeroPad == 4 && c.end == None && c.stopAfterN404 == 10
    ensures c.retry == 5 && c.timeout == 30 && c.headers == None && c.autoDetect
  {
    JobConfig(baseFolderUrl, saveDir, outName, Yasya, 1, 4, None, 10, 5, 30, None, true)
  }
}
