/**
 * Icon choice for a file row of the navigation tree (app.js:78-128 and
 * app.js:145, 156-163): the extension is the trailing alphanumeric run after
 * the last dot, and the icon is the Bootstrap file-type icon of that
 * extension when the icon set has one, the Markdown icon otherwise.
 */
module FileIcons {
  import opened Text

  /** `SUPPORTED_FILE_ICONS` (app.js:78-128). */
  const SupportedIcons: seq<string> := [
    "filetype-aac", "filetype-ai", "filetype-bmp", "filetype-cs", "filetype-css",
    "filetype-csv", "filetype-doc", "filetype-docx", "filetype-exe", "filetype-gif",
    "filetype-heic", "filetype-html", "filetype-java", "filetype-jpg", "filetype-js",
    "filetype-json", "filetype-jsx", "filetype-key", "filetype-m4p", "filetype-md",
    "filetype-mdx", "filetype-mov", "filetype-mp3", "filetype-mp4", "filetype-otf",
    "filetype-pdf", "filetype-php", "filetype-png", "filetype-ppt", "filetype-pptx",
    "filetype-psd", "filetype-py", "filetype-raw", "filetype-rb", "filetype-sass",
    "filetype-scss", "filetype-sh", "filetype-sql", "filetype-svg", "filetype-tiff",
    "filetype-tsx", "filetype-ttf", "filetype-txt", "filetype-wav", "filetype-woff",
    "filetype-xls", "filetype-xlsx", "filetype-xml", "filetype-yml"
  ]

  /** The icon of a file whose extension has no icon of its own (app.js:145). */
  const DefaultIcon: string := "bi bi-filetype-md tree-icon"

  /** The icon class string for an entry of the icon set. */
  function IconClass(candidate: string): string {
    "bi bi-" + candidate + " tree-icon"
  }

  /** Every character of `s` from position `i` on is alphanumeric. */
  predicate AlnumFrom(s: string, i: nat) {
    forall m :: i <= m < |s| ==> IsAlnum(s[m])
  }

  /** Start of the longest alphanumeric run that ends just before position `j`. */
  function AlnumRunStart(s: string, j: nat): (i: nat)
    requires j <= |s|
    ensures i <= j
    ensures forall m :: i <= m < j ==> IsAlnum(s[m])
    ensures i > 0 ==> !IsAlnum(s[i - 1])
  {
    if j > 0 && IsAlnum(s[j - 1]) then AlnumRunStart(s, j - 1) else j
  }

  /**
   * The capture group of `name.match(/\.([a-zA-Z0-9]+)$/)`: a non-empty
   * alphanumeric run that ends the name and follows a dot.
   */
  function Extension(name: string): (r: Option<string>)
    ensures r.Some? <==> exists k :: 0 <= k < |name| - 1 && name[k] == '.' && AlnumFrom(name, k + 1)
    ensures r.Some? ==> |r.value| > 0 && EndsWith(name, "." + r.value)
    ensures r.Some? ==> forall m :: 0 <= m < |r.value| ==> IsAlnum(r.value[m])
  {
    var i := AlnumRunStart(name, |name|);
    if 0 < i < |name| && name[i - 1] == '.' then
      assert name[i - 1..] == "." + name[i..];
      Some(name[i..])
    else
      assert forall k :: 0 <= k < |name| - 1 && name[k] == '.' ==> !AlnumFrom(name, k + 1) by {
        forall k | 0 <= k < |name| - 1 && name[k] == '.'
          ensures !AlnumFrom(name, k + 1)
        {
          if k + 1 < i {
            assert !IsAlnum(name[i - 1]);
          }
        }
      }
      None
  }

  /** The icon class a file row named `name` gets. */
  function IconFor(name: string): (icon: string)
    ensures icon == DefaultIcon || exists c :: c in SupportedIcons && icon == IconClass(c)
  {
    match Extension(name)
    case None => DefaultIcon
    case Some(ext) =>
      var candidate := "filetype-" + LowerString(ext);
      if candidate in SupportedIcons then IconClass(candidate) else DefaultIcon
  }

  /** Every icon chosen is one of the supported set: the default is the Markdown icon. */
  lemma IconIsSupported(name: string)
    ensures exists c :: c in SupportedIcons && IconFor(name) == IconClass(c)
  {
    if IconFor(name) == DefaultIcon {
      assert SupportedIcons[19] == "filetype-md";
      assert DefaultIcon == IconClass(SupportedIcons[19]);
    }
  }

  /**
   * The extension's own icon exactly when the name has an extension whose
   * lower-cased form names an icon of the set; the default otherwise.
   */
  lemma IconChoice(name: string)
    ensures Extension(name).Some? && "filetype-" + LowerString(Extension(name).value) in SupportedIcons
            ==> IconFor(name) == IconClass("filetype-" + LowerString(Extension(name).value))
    ensures Extension(name).None? ==> IconFor(name) == DefaultIcon
    ensures Extension(name).Some? && "filetype-" + LowerString(Extension(name).value) !in SupportedIcons
            ==> IconFor(name) == DefaultIcon
  {
  }

  /** `X.PNG` gets the PNG icon: the extension is matched case-insensitively. */
  lemma UpperCaseExtension()
    ensures IconFor("X.PNG") == IconClass("filetype-png")
  {
    var name := "X.PNG";
    assert Extension(name) == Some("PNG") by {
      assert AlnumRunStart(name, 5) == AlnumRunStart(name, 2) == 2 by {
        assert IsAlnum(name[4]) && IsAlnum(name[3]) && IsAlnum(name[2]) && !IsAlnum(name[1]);
      }
    }
    assert "filetype-" + LowerString("PNG") == "filetype-png" by {
      assert Lower('P') == 'p' && Lower('N') == 'n' && Lower('G') == 'g';
      assert LowerString("PNG") == "png" by {
        var l := LowerString("PNG");
        assert |l| == 3 && l[0] == 'p' && l[1] == 'n' && l[2] == 'g';
      }
    }
    assert "filetype-png" in SupportedIcons by {
      assert SupportedIcons[27] == "filetype-png";
    }
    IconChoice(name);
  }

  /** A name without a dot, and a name whose last run follows a hyphen, get the default icon. */
  lemma DefaultIconExamples()
    ensures IconFor("notes") == DefaultIcon
    ensures IconFor("a.tar-gz") == DefaultIcon
  {
    assert AlnumRunStart("notes", 5) == 0 by {
      assert forall m :: 0 <= m < 5 ==> IsAlnum("notes"[m]);
    }
    assert AlnumRunStart("a.tar-gz", 8) == AlnumRunStart("a.tar-gz", 6) == 6 by {
      assert IsAlnum("a.tar-gz"[7]) && IsAlnum("a.tar-gz"[6]) && !IsAlnum("a.tar-gz"[5]);
    }
  }
}
