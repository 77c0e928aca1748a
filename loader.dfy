/**
 * The Base64 wrapping step of `obfuscate_script` (DaObfu/daobfu.py): the script is
 * written as UTF-8, Base64-encoded, and placed in a one-line PowerShell command that
 * decodes it again and hands it to `Invoke-Expression` (IEX).
 */
module Loader {
  import opened Wrappers
  import Utf8
  import Base64

  const Prefix: string := "IEX ([System.Text.Encoding]::UTF8.GetString([System.Convert]::FromBase64String('"
  const Suffix: string := "')))"

  /** `base64.b64encode(script.encode('utf-8')).decode('utf-8')` */
  function Payload(script: string): (p: string)
    ensures Base64.IsPadded(p)
  {
    Base64.EncodeIsPadded(Utf8.Encode(script));
    Base64.Encode(Utf8.Encode(script))
  }

  /** The loader command around the payload. */
  function Wrap(script: string): string
  {
    Prefix + Payload(script) + Suffix
  }

  /** The text between the quotes of a loader command; None when `cmd` does not have the loader's shape. */
  function LoaderPayload(cmd: string): (r: Option<string>)
    ensures r.Some? ==> cmd == Prefix + r.value + Suffix
  {
    if |cmd| >= |Prefix| + |Suffix| && cmd[..|Prefix|] == Prefix && cmd[|cmd| - |Suffix|..] == Suffix then
      var p := cmd[|Prefix|..|cmd| - |Suffix|];
      assert cmd == cmd[..|Prefix|] + p + cmd[|cmd| - |Suffix|..];
      Some(p)
    else None
  }

  /**
   * What the loader hands to IEX: FromBase64String, then UTF8.GetString, of the quoted
   * payload. The UTF-8 decoder here is strict and gives None on malformed bytes, where
   * GetString would substitute U+FFFD; the payload of `Wrap` never holds such bytes.
   */
  function RunLoader(cmd: string): Option<string>
  {
    match LoaderPayload(cmd)
    case None => None
    case Some(p) =>
      match Base64.Decode(p)
      case None => None
      case Some(bytes) => Utf8.Decode(bytes)
  }

  /** The wrapped command evaluates to exactly the script that was wrapped. */
  lemma RunLoaderWrap(script: string)
    ensures RunLoader(Wrap(script)) == Some(script)
  {
    var p := Payload(script);
    var cmd := Wrap(script);
    assert cmd[..|Prefix|] == Prefix;
    assert cmd[|cmd| - |Suffix|..] == Suffix;
    assert cmd[|Prefix|..|cmd| - |Suffix|] == p;
    Base64.DecodeEncode(Utf8.Encode(script));
    Utf8.DecodeEncode(script);
  }

  /**
   * The payload never holds a quote or a line break, so the single-quoted PowerShell
   * literal ends exactly where the suffix starts and the payload does not break the line.
   */
  lemma PayloadIsQuoteSafe(script: string)
    ensures var cmd := Wrap(script);
      forall i :: |Prefix| <= i < |cmd| - |Suffix| ==> cmd[i] != '\'' && cmd[i] != '\n'
  {
    var p := Payload(script);
    var cmd := Wrap(script);
    forall i | |Prefix| <= i < |cmd| - |Suffix| ensures cmd[i] != '\'' && cmd[i] != '\n' {
      assert cmd[i] == p[i - |Prefix|];
    }
  }
}
