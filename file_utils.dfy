/** The file-type registry and file-name rules of src/utils/fileUtils.ts:
    the extension of a file name, the table of known extensions with its
    plain-text fallback, the per-type templates of a new file, and the
    validation of a name typed by the user. */
module FileUtils {
  import opened Types
  import Text

  /** Presentation data of one file type: editor language, icon and colour. */
  datatype FileTypeInfo = FileTypeInfo(language: string, icon: string, color: string)

  /** The registry, keyed by lower-case extension. */
  const FileTypes: map<string, FileTypeInfo> :=
    map[
      "html" := FileTypeInfo("html", "\U{1F310}", "#e34c26"),
      "css" := FileTypeInfo("css", "\U{1F3A8}", "#1572b6"),
      "js" := FileTypeInfo("javascript", "\U{1F4DC}", "#f7df1e"),
      "jsx" := FileTypeInfo("javascript", "\U{269B}\U{FE0F}", "#61dafb"),
      "ts" := FileTypeInfo("typescript", "\U{1F4D8}", "#3178c6"),
      "tsx" := FileTypeInfo("typescript", "\U{269B}\U{FE0F}", "#3178c6"),
      "py" := FileTypeInfo("python", "\U{1F40D}", "#3776ab"),
      "md" := FileTypeInfo("markdown", "\U{1F4DD}", "#083fa1"),
      "json" := FileTypeInfo("json", "\U{1F4CB}", "#000000"),
      "xml" := FileTypeInfo("xml", "\U{1F4C4}", "#e37933"),
      "txt" := FileTypeInfo("plaintext", "\U{1F4C4}", "#666666")
    ]

  /** The boilerplate content of a new file, for the types that have one. */
  const Templates: map<string, string> :=
    map[
      "html" := "<!DOCTYPE html>\n<html lang=\"en\">\n<head>\n    <meta charset=\"UTF-8\">\n    <meta name=\"viewport\" content=\"width=device-width, initial-scale=1.0\">\n    <title>Document</title>\n</head>\n<body>\n    <h1>Hello World!</h1>\n</body>\n</html>",
      "css" := "/* CSS Styles */\nbody {\n    font-family: Arial, sans-serif;\n    margin: 0;\n    padding: 20px;\n    background-color: #f5f5f5;\n}\n\nh1 {\n    color: #333;\n    text-align: center;\n}",
      "js" := "// JavaScript\nconsole.log('Hello World!');\n\nfunction main() {\n    // Your code here\n}\n\nmain();",
      "jsx" := "import React from 'react';\n\nconst Component = () => {\n    return (\n        <div>\n            <h1>Hello React!</h1>\n        </div>\n    );\n};\n\nexport default Component;",
      "ts" := "// TypeScript\ninterface Person {\n    name: string;\n    age: number;\n}\n\nconst person: Person = {\n    name: 'John',\n    age: 30\n};\n\nconsole.log(person);",
      "tsx" := "import React from 'react';\n\ninterface Props {\n    title: string;\n}\n\nconst Component: React.FC<Props> = ({ title }) => {\n    return (\n        <div>\n            <h1>{title}</h1>\n        </div>\n    );\n};\n\nexport default Component;",
      "py" := "# Python\ndef main():\n    print(\"Hello World!\")\n\nif __name__ == \"__main__\":\n    main()",
      "md" := "# Markdown Document\n\nThis is a **markdown** file.\n\n## Features\n- Easy to write\n- Easy to read\n- Supports *formatting*\n\n```javascript\nconsole.log('Code blocks supported!');\n```"
    ]

  /** The types whose new files start from a template; every other type,
      json, xml and txt included, starts empty. */
  const TemplatedTypes: set<string> := {"html", "css", "js", "jsx", "ts", "tsx", "py", "md"}

  const EmptyNameMessage := "File name cannot be empty"
  const SlashMessage := "File name cannot contain slashes"
  const TooLongMessage := "File name too long"
  const MaxNameLength := 100

  /** `getFileExtension`: the lower-cased text after the last dot (all of the
      name when it has no dot), or "txt" when that text is empty. */
  function GetFileExtension(filename: string): (ext: string)
    ensures ext != ""
    ensures '.' !in ext
    ensures forall i :: 0 <= i < |ext| ==> !Text.IsUpper(ext[i])
  {
    var tail := Text.Lower(Text.AfterLast(filename, '.'));
    assert forall i :: 0 <= i < |tail| ==> tail[i] != '.' by {
      var raw := Text.AfterLast(filename, '.');
      assert forall i :: 0 <= i < |raw| ==> raw[i] in raw;
    }
    if tail == "" then "txt" else tail
  }

  /** `getFileType`: the registry entry of the extension, or the txt entry. */
  function GetFileType(filename: string): (info: FileTypeInfo)
    ensures info in FileTypes.Values
  {
    var ext := GetFileExtension(filename);
    if ext in FileTypes then FileTypes[ext] else FileTypes["txt"]
  }

  /** `createNewFile`, with the id and the clock reading as parameters. */
  function CreateNewFile(name: string, fileType: string, id: string, now: nat): (f: File)
    ensures f.id == id && f.name == name && f.fileType == fileType && f.lastModified == now
    ensures f.content != "" <==> fileType in TemplatedTypes
    ensures fileType in TemplatedTypes ==> f.content == Templates[fileType]
  {
    File(id, name, if fileType in Templates then Templates[fileType] else "", fileType, now)
  }

  /** `validateFileName`: None when the name is acceptable, otherwise the
      message of the first rule it breaks, in the order: blank, slash, length.
      Only the blankness test looks at the trimmed name. */
  function ValidateFileName(name: string): (err: Option<string>)
    ensures err == None <==>
              !Text.IsBlank(name) && '/' !in name && '\\' !in name && |name| <= MaxNameLength
    ensures Text.IsBlank(name) ==> err == Some(EmptyNameMessage)
    ensures !Text.IsBlank(name) && ('/' in name || '\\' in name) ==> err == Some(SlashMessage)
    ensures !Text.IsBlank(name) && '/' !in name && '\\' !in name && |name| > MaxNameLength ==>
              err == Some(TooLongMessage)
  {
    Text.TrimEmptyIffBlank(name);
    Text.IncludesChar(name, '/');
    Text.IncludesChar(name, '\\');
    if Text.Trim(name) == "" then Some(EmptyNameMessage)
    else if Text.Includes(name, "/") || Text.Includes(name, "\\") then Some(SlashMessage)
    else if |name| > MaxNameLength then Some(TooLongMessage)
    else None
  }

  /** With a dot at position i and none after it, the extension is the
      lower-cased text after that dot, or "txt" when the dot ends the name. */
  lemma ExtensionAfterLastDot(name: string, i: nat)
    requires i < |name| && name[i] == '.'
    requires '.' !in name[i + 1..]
    ensures GetFileExtension(name) == if i == |name| - 1 then "txt" else Text.Lower(name[i + 1..])
  {
    Text.AfterLastAt(name, '.', i);
  }

  /** Without a dot the extension is the whole name lower-cased, or "txt"
      for the empty name. */
  lemma ExtensionWithoutDot(name: string)
    requires '.' !in name
    ensures GetFileExtension(name) == if name == "" then "txt" else Text.Lower(name)
  {
    assert forall j :: 0 <= j < |name| ==> name[j] in name;
  }

  /** The extension of `base + "." + ext` is `ext` lower-cased, whatever
      `base` holds, when `ext` is non-empty and has no dot. */
  lemma ExtensionOfJoinedName(base: string, ext: string)
    requires ext != "" && '.' !in ext
    ensures GetFileExtension(base + "." + ext) == Text.Lower(ext)
  {
    var name := base + "." + ext;
    assert name[|base|] == '.';
    assert name[|base| + 1..] == ext;
    ExtensionAfterLastDot(name, |base|);
  }

  /** Extension matching is case-insensitive: names that agree once
      lower-cased have the same extension. */
  lemma ExtensionIgnoresCase(a: string, b: string)
    requires Text.Lower(a) == Text.Lower(b)
    ensures GetFileExtension(a) == GetFileExtension(b)
  {
    Text.LowerAfterLast(a);
    Text.LowerAfterLast(b);
    Text.LowerIdempotent(Text.AfterLast(a, '.'));
    Text.LowerIdempotent(Text.AfterLast(b, '.'));
  }

  /** Names that agree once lower-cased have the same file type. */
  lemma FileTypeIgnoresCase(a: string, b: string)
    requires Text.Lower(a) == Text.Lower(b)
    ensures GetFileType(a) == GetFileType(b)
  {
    ExtensionIgnoresCase(a, b);
  }

  /** The registry has exactly the eleven documented extensions. */
  lemma RegistryExtensions()
    ensures FileTypes.Keys == {"html", "css", "js", "jsx", "ts", "tsx", "py", "md", "json", "xml", "txt"}
  {
  }

  /** A name whose extension is not in the registry gets the txt entry. */
  lemma UnknownExtensionIsText(name: string)
    requires GetFileExtension(name) !in FileTypes
    ensures GetFileType(name) == FileTypes["txt"]
    ensures GetFileType(name) == FileTypeInfo("plaintext", "\U{1F4C4}", "#666666")
  {
  }

  /** A name whose extension is in the registry gets that extension's entry. */
  lemma KnownExtensionLooksUp(name: string)
    requires GetFileExtension(name) in FileTypes
    ensures GetFileType(name) == FileTypes[GetFileExtension(name)]
  {
  }

  /** Sample extension: the text after the dot. */
  lemma ExtensionExamples()
    ensures GetFileExtension("style.css") == "css"
  {
    ExtensionOfJoinedName("style", "css");
    assert "style" + "." + "css" == "style.css";
  }

  /** Sample extension of a name in capitals: it is lower-cased. */
  lemma CapitalExtensionExample()
    ensures GetFileExtension("Style.CSS") == "css"
  {
    ExtensionOfJoinedName("Style", "CSS");
    assert "Style" + "." + "CSS" == "Style.CSS";
    Text.LowerCapitals("CSS");
    assert Text.Lower("CSS") == "css";
  }

  /** Sample extension of a name with several dots: the text after the last
      one. */
  lemma LastDotExample()
    ensures GetFileExtension("archive.tar.gz") == "gz"
  {
    ExtensionOfJoinedName("archive.tar", "gz");
    assert "archive.tar" + "." + "gz" == "archive.tar.gz";
  }

  /** Sample fallbacks: "txt" for a name that ends with a dot and for the
      empty name. */
  lemma FallbackExtensionExamples()
    ensures GetFileExtension("a.") == "txt"
    ensures GetFileExtension("") == "txt"
  {
    ExtensionAfterLastDot("a.", 1);
    ExtensionWithoutDot("");
  }

  /** The length limit applies to the untrimmed name: one letter followed by
      a hundred spaces trims to one character yet is too long. */
  lemma PaddedNameIsTooLong()
    ensures ValidateFileName("a" + seq(100, _ => ' ')) == Some(TooLongMessage)
  {
    var name := "a" + seq(100, _ => ' ');
    assert name[0] == 'a' && !Text.IsWhitespace(name[0]);
    assert forall i :: 0 <= i < |name| ==> name[i] == 'a' || name[i] == ' ';
  }

  /** Appending a dot and an extension without slashes to a valid name
      keeps it non-blank and free of slashes: of the three rules, only the
      length limit can reject the longer name. */
  lemma ExtendedValidNameKeepsRules(name: string, ext: string)
    requires ValidateFileName(name) == None
    requires '/' !in ext && '\\' !in ext
    ensures var full := name + "." + ext;
            && !Text.IsBlank(full) && '/' !in full && '\\' !in full
            && |full| == |name| + 1 + |ext|
  {
    Text.NotBlankExtended(name, ".", ext);
  }

  /** Slashes are checked before length: a 150-character name of slashes
      gets the slash message. */
  lemma LongNameWithSlash()
    ensures ValidateFileName(seq(150, _ => '/')) == Some(SlashMessage)
  {
    var name := seq(150, _ => '/');
    assert name[0] == '/' && !Text.IsWhitespace(name[0]);
  }
}
