/** `createChartSandbox`: wrap each file of a sandbox template as
    `{content}` and hand the result to the sandbox service's parameter
    encoder. */
module ChartSandbox {
  import opened ReactApp

  /** One entry of the `files` object: `{ content }`. */
  datatype SandboxFile = SandboxFile(content: FileContent)

  /** The argument of the encoder: `{ files }`. */
  datatype SandboxDefinition = SandboxDefinition(files: map<string, SandboxFile>)

  const DefineUrl := "https://codesandbox.io/api/v1/sandboxes/define?parameters="

  /** Every path of the template, its content wrapped. */
  function WrapFiles(template: map<string, FileContent>): (files: map<string, SandboxFile>)
    ensures files.Keys == template.Keys
    ensures forall path :: path in files ==> files[path].content == template[path]
  {
    map path | path in template :: SandboxFile(template[path])
  }

  /** The contents of the wrapped files. */
  function UnwrapFiles(files: map<string, SandboxFile>): map<string, FileContent> {
    map path | path in files :: files[path].content
  }

  /** Wrapping loses nothing: unwrapping gives back the template. */
  lemma UnwrapWrapFiles(template: map<string, FileContent>)
    ensures UnwrapFiles(WrapFiles(template)) == template
  {
    var back := UnwrapFiles(WrapFiles(template));
    assert back.Keys == template.Keys;
    assert forall path :: path in back ==> back[path] == template[path];
  }

  /** The link: the `files` object is filled path by path, then encoded by
      `getParameters`, whose encoding is not part of this model. */
  method CreateChartSandbox(chartTemplate: map<string, FileContent>, getParameters: SandboxDefinition -> string)
    returns (url: string)
    ensures url == DefineUrl + getParameters(SandboxDefinition(WrapFiles(chartTemplate)))
  {
    var files: map<string, SandboxFile> := map[];
    var remaining := chartTemplate.Keys;
    while remaining != {}
      invariant remaining <= chartTemplate.Keys
      invariant files.Keys == chartTemplate.Keys - remaining
      invariant forall path :: path in files ==> files[path] == SandboxFile(chartTemplate[path])
      decreases |remaining|
    {
      var filePath :| filePath in remaining;
      files := files[filePath := SandboxFile(chartTemplate[filePath])];
      remaining := remaining - {filePath};
    }
    assert files == WrapFiles(chartTemplate);
    url := DefineUrl + getParameters(SandboxDefinition(files));
  }
}
