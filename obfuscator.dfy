/**
 * `obfuscate_script` of DaObfu/daobfu.py: comment and blank-line removal, variable
 * renaming, Base64 wrapping, and the name of the output file, in that order. Reading
 * the input file and writing the output file are left to the caller: the method takes
 * the file's text and returns the text to be written.
 */
module Obfuscator {
  import opened Wrappers
  import Normalizer
  import Renamer
  import Loader
  import Paths

  /** The text after the first two passes, when the renaming loop visits `order`. */
  function Renamed(content: string, removeComments: bool, removeWhitespace: bool,
                   obfuscateVars: bool, order: seq<string>, gen: nat -> string): string
  {
    var cleaned := Normalizer.RemoveCommentsAndWhitespace(content, removeComments, removeWhitespace);
    if obfuscateVars then Renamer.Unlex(Renamer.RenameAll(Renamer.Lex(cleaned), order, gen)) else cleaned
  }

  /**
   * The whole pipeline. `gen(k)` is the k-th name `generate_random_name` returns and
   * `order` reports the order in which the loop visited the found variables.
   */
  method ObfuscateScript(path: string, content: string, obfuscateVars: bool, removeComments: bool,
                         removeWhitespace: bool, encodeBase64: bool, gen: nat -> string, flavor: Paths.Flavor)
    returns (output: string, outputPath: string, message: string, order: seq<string>)
    requires forall k :: Renamer.IsGeneratedName(gen(k))
    ensures obfuscateVars ==> Renamer.Enumerates(order, Renamer.Findall(
      Normalizer.RemoveCommentsAndWhitespace(content, removeComments, removeWhitespace)))
    ensures !obfuscateVars ==> order == []
    ensures var script := Renamed(content, removeComments, removeWhitespace, obfuscateVars, order, gen);
      output == if encodeBase64 then Loader.Wrap(script) else script
    ensures encodeBase64 ==>
      Loader.RunLoader(output) == Some(Renamed(content, removeComments, removeWhitespace, obfuscateVars, order, gen))
    ensures !obfuscateVars && !removeComments && !removeWhitespace && !encodeBase64 ==> output == content
    ensures outputPath == Paths.OutputPath(flavor, path) && outputPath != path
    ensures message == "Obfuscated script saved to " + outputPath
  {
    var script := Normalizer.RemoveCommentsAndWhitespace(content, removeComments, removeWhitespace);
    order := [];
    if obfuscateVars {
      script, order := Renamer.ObfuscateVariables(script, gen);
    }
    if encodeBase64 {
      Loader.RunLoaderWrap(script);
      script := Loader.Wrap(script);
    }
    output := script;
    Paths.OutputPathSplit(flavor, path);
    outputPath := Paths.OutputPath(flavor, path);
    message := "Obfuscated script saved to " + outputPath;
  }
}
