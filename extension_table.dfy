/**
 * The extension table of src/preset/extensionToMediaTypesTable.ts, read by
 * `guessMediaTypesByFileExtension`: 83 extensions, each with its media types
 * in order of preference. The literal is split into groups of eight entries
 * joined in source order.
 */
module PresetExtensionTable {
  import opened Wrappers
  import opened FileExtension

  /** The extensions from `apng` to `docx`. */
  const ExtensionsApngToDocx: ExtensionTable := [
    ("apng", ["image/apng"]),
    ("avif", ["image/avif"]),
    ("avifs", ["image/avif"]),
    ("bmp", ["image/bmp"]),
    ("dib", ["image/bmp"]),
    ("djv", ["image/vnd.djvu"]),
    ("djvu", ["image/vnd.djvu"]),
    ("docx", ["application/vnd.openxmlformats-officedocument.wordprocessingml.document", "application/zip"])
  ]

  /** The extensions from `dng` to `heifs`. */
  const ExtensionsDngToHeifs: ExtensionTable := [
    ("dng", ["image/tiff"]),
    ("dtd", ["application/xml-dtd"]),
    ("gif", ["image/gif"]),
    ("gz", ["application/gzip"]),
    ("heic", ["image/heic"]),
    ("heics", ["image/heic-sequence"]),
    ("heif", ["image/heif"]),
    ("heifs", ["image/heif-sequence"])
  ]

  /** The extensions from `hif` to `jfi`. */
  const ExtensionsHifToJfi: ExtensionTable := [
    ("hif", ["image/heic", "image/heif"]),
    ("htm", ["text/html"]),
    ("html", ["text/html"]),
    ("ico", ["image/vnd.microsoft.icon"]),
    ("jar", ["application/java-archive", "application/zip"]),
    ("j2c", ["image/j2c"]),
    ("j2k", ["image/j2c"]),
    ("jfi", ["image/jpeg"])
  ]

  /** The extensions from `jfif` to `jpg2`. */
  const ExtensionsJfifToJpg2: ExtensionTable := [
    ("jfif", ["image/jpeg"]),
    ("jif", ["image/jpeg"]),
    ("jp2", ["image/jp2"]),
    ("jpe", ["image/jpeg"]),
    ("jpeg", ["image/jpeg"]),
    ("jpf", ["image/jpx"]),
    ("jpg", ["image/jpeg"]),
    ("jpg2", ["image/jp2"])
  ]

  /** The extensions from `jpgm` to `mj2`. */
  const ExtensionsJpgmToMj2: ExtensionTable := [
    ("jpgm", ["image/jpm"]),
    ("jpm", ["image/jpm"]),
    ("jpx", ["image/jpx"]),
    ("m1a", ["audio/mpeg"]),
    ("m1v", ["video/mpeg"]),
    ("m2a", ["audio/mpeg"]),
    ("m2v", ["video/mpeg"]),
    ("mj2", ["video/mj2"])
  ]

  /** The extensions from `mjp2` to `mp4v`. */
  const ExtensionsMjp2ToMp4v: ExtensionTable := [
    ("mjp2", ["video/mj2"]),
    ("mp1", ["audio/mpeg"]),
    ("mp1a", ["audio/mpeg"]),
    ("mp2", ["audio/mpeg"]),
    ("mp2a", ["audio/mpeg"]),
    ("mp3", ["audio/mpeg"]),
    ("mp4", ["video/mp4"]),
    ("mp4v", ["video/mp4"])
  ]

  /** The extensions from `mpeg` to `otf`. */
  const ExtensionsMpegToOtf: ExtensionTable := [
    ("mpeg", ["video/mpeg"]),
    ("mpg4", ["video/mp4"]),
    ("mpg", ["video/mpeg"]),
    ("mpga", ["audio/mpeg"]),
    ("odp", ["application/zip"]),
    ("ods", ["application/zip"]),
    ("odt", ["application/zip"]),
    ("otf", ["font/otf"])
  ]

  /** The extensions from `pdf` to `ttf`. */
  const ExtensionsPdfToTtf: ExtensionTable := [
    ("pdf", ["application/pdf"]),
    ("png", ["image/png", "image/apng"]),
    ("pptx", ["application/vnd.openxmlformats-officedocument.presentationml.presentation", "application/zip"]),
    ("svg", ["image/svg+xml"]),
    ("tgz", ["application/gzip"]),
    ("tif", ["image/tiff"]),
    ("tiff", ["image/tiff"]),
    ("ttf", ["font/ttf"])
  ]

  /** The extensions from `war` to `z00`. */
  const ExtensionsWarToZ00: ExtensionTable := [
    ("war", ["application/zip"]),
    ("wbmp", ["image/vnd.wap.wbmp"]),
    ("webp", ["image/webp"]),
    ("woff", ["font/woff"]),
    ("woff2", ["font/woff2"]),
    ("xlsx", ["application/vnd.openxmlformats-officedocument.spreadsheetml.sheet", "application/zip"]),
    ("xml", ["application/xml"]),
    ("z00", ["application/zip"])
  ]

  /** The extensions from `z01` to `z08`. */
  const ExtensionsZ01ToZ08: ExtensionTable := [
    ("z01", ["application/zip"]),
    ("z02", ["application/zip"]),
    ("z03", ["application/zip"]),
    ("z04", ["application/zip"]),
    ("z05", ["application/zip"]),
    ("z06", ["application/zip"]),
    ("z07", ["application/zip"]),
    ("z08", ["application/zip"])
  ]

  /** The extensions from `z09` to `zipx`. */
  const ExtensionsZ09ToZipx: ExtensionTable := [
    ("z09", ["application/zip"]),
    ("zip", ["application/zip"]),
    ("zipx", ["application/zip"])
  ]

  const ExtensionGroups: seq<ExtensionTable> := [
    ExtensionsApngToDocx,
    ExtensionsDngToHeifs,
    ExtensionsHifToJfi,
    ExtensionsJfifToJpg2,
    ExtensionsJpgmToMj2,
    ExtensionsMjp2ToMp4v,
    ExtensionsMpegToOtf,
    ExtensionsPdfToTtf,
    ExtensionsWarToZ00,
    ExtensionsZ01ToZ08,
    ExtensionsZ09ToZipx
  ]

  /** `extensionToMediaTypesTable`. */
  const ExtensionToMediaTypesTable: ExtensionTable := Concat(ExtensionGroups)

  lemma ExtensionsApngToDocxAvoid()
    ensures KeysOutside(ExtensionsApngToDocx, UnlistedNames + {"png", "gz"})
  {
    KeysAvoidSound(ExtensionsApngToDocx, UnlistedNames + {"png", "gz"}, 0);
  }

  lemma ExtensionsDngToHeifsAvoid()
    ensures KeysOutside(ExtensionsDngToHeifs, UnlistedNames + {"png"})
  {
    KeysAvoidSound(ExtensionsDngToHeifs, UnlistedNames + {"png"}, 0);
  }

  lemma ExtensionsHifToJfiAvoid()
    ensures KeysOutside(ExtensionsHifToJfi, UnlistedNames + {"png", "gz"})
  {
    KeysAvoidSound(ExtensionsHifToJfi, UnlistedNames + {"png", "gz"}, 0);
  }

  lemma ExtensionsJfifToJpg2Avoid()
    ensures KeysOutside(ExtensionsJfifToJpg2, UnlistedNames + {"png", "gz"})
  {
    KeysAvoidSound(ExtensionsJfifToJpg2, UnlistedNames + {"png", "gz"}, 0);
  }

  lemma ExtensionsJpgmToMj2Avoid()
    ensures KeysOutside(ExtensionsJpgmToMj2, UnlistedNames + {"png", "gz"})
  {
    KeysAvoidSound(ExtensionsJpgmToMj2, UnlistedNames + {"png", "gz"}, 0);
  }

  lemma ExtensionsMjp2ToMp4vAvoid()
    ensures KeysOutside(ExtensionsMjp2ToMp4v, UnlistedNames + {"png", "gz"})
  {
    KeysAvoidSound(ExtensionsMjp2ToMp4v, UnlistedNames + {"png", "gz"}, 0);
  }

  lemma ExtensionsMpegToOtfAvoid()
    ensures KeysOutside(ExtensionsMpegToOtf, UnlistedNames + {"png", "gz"})
  {
    KeysAvoidSound(ExtensionsMpegToOtf, UnlistedNames + {"png", "gz"}, 0);
  }

  lemma ExtensionsPdfToTtfAvoid()
    ensures KeysOutside(ExtensionsPdfToTtf, UnlistedNames + {"gz"})
  {
    KeysAvoidSound(ExtensionsPdfToTtf, UnlistedNames + {"gz"}, 0);
  }

  lemma ExtensionsWarToZ00Avoid()
    ensures KeysOutside(ExtensionsWarToZ00, UnlistedNames + {"png", "gz"})
  {
    KeysAvoidSound(ExtensionsWarToZ00, UnlistedNames + {"png", "gz"}, 0);
  }

  lemma ExtensionsZ01ToZ08Avoid()
    ensures KeysOutside(ExtensionsZ01ToZ08, UnlistedNames + {"png", "gz"})
  {
    KeysAvoidSound(ExtensionsZ01ToZ08, UnlistedNames + {"png", "gz"}, 0);
  }

  lemma ExtensionsZ09ToZipxAvoid()
    ensures KeysOutside(ExtensionsZ09ToZipx, UnlistedNames + {"png", "gz"})
  {
    KeysAvoidSound(ExtensionsZ09ToZipx, UnlistedNames + {"png", "gz"}, 0);
  }

  /** None of the unlisted names is a key of the table. */
  lemma UnlistedNamesOutside()
    ensures KeysOutside(ExtensionToMediaTypesTable, UnlistedNames)
  {
    var gs := ExtensionGroups;
    forall j | 0 <= j < |gs| ensures KeysOutside(gs[j], UnlistedNames) {
      if j == 0 { ExtensionsApngToDocxAvoid(); }
      if j == 1 { ExtensionsDngToHeifsAvoid(); }
      if j == 2 { ExtensionsHifToJfiAvoid(); }
      if j == 3 { ExtensionsJfifToJpg2Avoid(); }
      if j == 4 { ExtensionsJpgmToMj2Avoid(); }
      if j == 5 { ExtensionsMjp2ToMp4vAvoid(); }
      if j == 6 { ExtensionsMpegToOtfAvoid(); }
      if j == 7 { ExtensionsPdfToTtfAvoid(); }
      if j == 8 { ExtensionsWarToZ00Avoid(); }
      if j == 9 { ExtensionsZ01ToZ08Avoid(); }
      if j == 10 { ExtensionsZ09ToZipxAvoid(); }
    }
    KeysOutsideConcat(gs, UnlistedNames);
  }

  /** The `png` entry lists the plain and the animated variant, in that order. */
  lemma PngTypes()
    ensures OwnProperty(ExtensionToMediaTypesTable, "png") == Some(["image/png", "image/apng"])
  {
    var gs := ExtensionGroups;
    forall j | 7 < j < |gs| ensures OwnProperty(gs[j], "png").None? {
      if j == 8 {
        ExtensionsWarToZ00Avoid();
        NoOwnProperty(ExtensionsWarToZ00, UnlistedNames + {"png", "gz"}, "png");
      }
      if j == 9 {
        ExtensionsZ01ToZ08Avoid();
        NoOwnProperty(ExtensionsZ01ToZ08, UnlistedNames + {"png", "gz"}, "png");
      }
      if j == 10 {
        ExtensionsZ09ToZipxAvoid();
        NoOwnProperty(ExtensionsZ09ToZipx, UnlistedNames + {"png", "gz"}, "png");
      }
    }
    assert KeysAvoid(ExtensionsPdfToTtf, {"png"}, 2);
    KeysAvoidSound(ExtensionsPdfToTtf, {"png"}, 2);
    OwnPropertyFound(ExtensionsPdfToTtf, 1, "png");
    OwnPropertyConcat(gs, 7, "png");
  }

  /** The `gz` entry. */
  lemma GzTypes()
    ensures OwnProperty(ExtensionToMediaTypesTable, "gz") == Some(["application/gzip"])
  {
    var gs := ExtensionGroups;
    forall j | 1 < j < |gs| ensures OwnProperty(gs[j], "gz").None? {
      if j == 2 {
        ExtensionsHifToJfiAvoid();
        NoOwnProperty(ExtensionsHifToJfi, UnlistedNames + {"png", "gz"}, "gz");
      }
      if j == 3 {
        ExtensionsJfifToJpg2Avoid();
        NoOwnProperty(ExtensionsJfifToJpg2, UnlistedNames + {"png", "gz"}, "gz");
      }
      if j == 4 {
        ExtensionsJpgmToMj2Avoid();
        NoOwnProperty(ExtensionsJpgmToMj2, UnlistedNames + {"png", "gz"}, "gz");
      }
      if j == 5 {
        ExtensionsMjp2ToMp4vAvoid();
        NoOwnProperty(ExtensionsMjp2ToMp4v, UnlistedNames + {"png", "gz"}, "gz");
      }
      if j == 6 {
        ExtensionsMpegToOtfAvoid();
        NoOwnProperty(ExtensionsMpegToOtf, UnlistedNames + {"png", "gz"}, "gz");
      }
      if j == 7 {
        ExtensionsPdfToTtfAvoid();
        NoOwnProperty(ExtensionsPdfToTtf, UnlistedNames + {"gz"}, "gz");
      }
      if j == 8 {
        ExtensionsWarToZ00Avoid();
        NoOwnProperty(ExtensionsWarToZ00, UnlistedNames + {"png", "gz"}, "gz");
      }
      if j == 9 {
        ExtensionsZ01ToZ08Avoid();
        NoOwnProperty(ExtensionsZ01ToZ08, UnlistedNames + {"png", "gz"}, "gz");
      }
      if j == 10 {
        ExtensionsZ09ToZipxAvoid();
        NoOwnProperty(ExtensionsZ09ToZipx, UnlistedNames + {"png", "gz"}, "gz");
      }
    }
    assert KeysAvoid(ExtensionsDngToHeifs, {"gz"}, 4);
    KeysAvoidSound(ExtensionsDngToHeifs, {"gz"}, 4);
    OwnPropertyFound(ExtensionsDngToHeifs, 3, "gz");
    OwnPropertyConcat(gs, 1, "gz");
  }

}
