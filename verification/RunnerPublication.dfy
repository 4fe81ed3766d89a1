/** The writes of the runner, on the directory that they change. */
module RunnerPublication {
  import opened Sequences
  import opened OutputEntries
  import opened SandboxHandoff

  class OutputDirectory {
    var files: Files

    constructor (files: Files)
      ensures this.files == files
    {
      this.files := files;
    }

    /** Opening a file for writing empties it, then the content is written. */
    method WriteFile(name: OutputName, content: Bytes)
      modifies this
      ensures files == ApplyAll(Write(name, content), old(files))
    {
      ApplyWrite(name, content, files);
      files := files[name := []];
      files := files[name := content];
    }
  }

  /** What `main` does after a capture: the writes are those of the model's script, so the
      directory ends up as the Supervisor expects it, whatever the command left there. */
  method Publish(job: Job, run: Run, directory: OutputDirectory)
    modifies directory
    ensures directory.files == ApplyAll(Script(job, run), old(directory.files))
    ensures LeavesFiles(job, run, old(directory.files), directory.files)
    ensures Published(job, run, directory.files)
    ensures forall n :: Publication(job, run, n).None? ==> SameAt(n, directory.files, old(directory.files))
  {
    ScriptPublishes(job, run, directory.files);
    ScriptInFourWrites(job, run, directory.files);
    directory.WriteFile(StdoutLog, run.stdout);
    directory.WriteFile(StderrLog, run.stderr);
    var reason := CommandReason(job, run);
    if Clean(run) && job.stage == Events {
      var measurement := job.codec.parse(run.stdout);
      if measurement.Some? && IsObject(measurement.value) {
        directory.WriteFile(MeasurementJson, job.codec.render(measurement.value));
      } else {
        reason := "events_failed";
        directory.WriteFile(StderrLog, run.stderr + run.message);
      }
    }
    directory.WriteFile(ResultJson, job.codec.render(Report(reason)));
  }
}
