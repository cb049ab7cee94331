/** `create_output_file_path`: where the CSV for an input log file goes. */
module Paths {
  import opened Outcomes
  import opened PyStr

  const DefaultOutputDir := "output"
  const DefaultFileType := "csv"

  /** `f"{output_dir}/{input_file_path.split('/')[1]}.{file_type}"`: the second
      `/`-separated part of the input path, in the output directory, with the
      file type appended. A path without `/` has no second part: IndexError. */
  function CreateOutputFilePath(inputPath: string, outputDir: string, fileType: string): (r: Result<string>)
    ensures r.Success? <==> '/' in inputPath
    ensures r.Failure? ==> r.error == IndexError
    ensures r.Success? ==> exists name :: '/' !in name && r.value == outputDir + "/" + name + "." + fileType
  {
    var parts := SplitOn(inputPath, '/');
    if |parts| < 2 then Failure(IndexError)
    else Success(outputDir + "/" + parts[1] + "." + fileType)
  }

  /** For an input path `dir/name...` whose first part has no `/`, the output
      file is named after `name`, the part up to the next `/`. */
  lemma OutputPathOfLogFile(dir: string, name: string, rest: string, outputDir: string, fileType: string)
    requires '/' !in dir && '/' !in name
    requires rest == [] || rest[0] == '/'
    ensures CreateOutputFilePath(dir + "/" + name + rest, outputDir, fileType)
            == Success(outputDir + "/" + name + "." + fileType)
  {
    SplitOnPrefix(dir, '/', name + rest);
    assert dir + "/" + name + rest == dir + ['/'] + (name + rest);
    if rest == [] {
      assert name + rest == name;
      SplitOnField(name, '/');
    } else {
      assert name + rest == name + ['/'] + rest[1..];
      SplitOnPrefix(name, '/', rest[1..]);
    }
  }

  /** The driver's case: `logs/<file>` becomes `output/<file>.csv`. */
  lemma OutputPathExample()
    ensures CreateOutputFilePath("logs/a.log", DefaultOutputDir, DefaultFileType)
            == Success("output/a.log.csv")
  {
    OutputPathOfLogFile("logs", "a.log", "", DefaultOutputDir, DefaultFileType);
    assert "logs" + "/" == "logs/";
    assert "logs/" + "a.log" == "logs/a.log";
    assert "logs/a.log" + "" == "logs/a.log";
    assert DefaultOutputDir + "/" == "output/";
    assert "output/" + "a.log" == "output/a.log";
    assert "output/a.log" + "." == "output/a.log.";
    assert "output/a.log." + DefaultFileType == "output/a.log.csv";
  }
}
