/** The two string builders of the performance helpers: the responsive
    `srcset` attribute and the WebP substitution of an image path. Whether
    the browser supports WebP (a canvas probe) is a parameter. */
module Performance {
  import opened Wrappers
  import opened Text
  import opened Js

  // ---------------------------------------------------------------------------
  // generateSrcset
  // ---------------------------------------------------------------------------

  /** The widths used when no `sizes` argument is passed. */
  function DefaultSizes(): seq<int>
  {
    [300, 600, 900, 1200]
  }

  /** One candidate: `${basePath}_${size}w.${extension} ${size}w`. */
  function SrcsetEntry(basePath: string, extension: string, size: int): string
  {
    basePath + "_" + NumberToString(size) + "w." + extension + " " + NumberToString(size) + "w"
  }

  function SrcsetEntries(basePath: string, extension: string, sizes: seq<int>): seq<string>
  {
    seq(|sizes|, i requires 0 <= i < |sizes| => SrcsetEntry(basePath, extension, sizes[i]))
  }

  /** generateSrcset: one candidate per width, joined by ", "; an omitted
      `sizes` argument (None) takes the default widths. */
  function Srcset(basePath: string, extension: string, sizes: Option<seq<int>>): string
  {
    var widths := if sizes.Some? then sizes.value else DefaultSizes();
    Join(SrcsetEntries(basePath, extension, widths), ", ")
  }

  /** No widths, no candidates. */
  lemma SrcsetEmpty(basePath: string, extension: string)
    ensures Srcset(basePath, extension, Some([])) == ""
  {
  }

  /** The srcset of a list of widths is the srcsets of its two halves joined
      by ", ": the candidates appear in the order of the widths. */
  lemma SrcsetAppend(basePath: string, extension: string, xs: seq<int>, ys: seq<int>)
    requires |xs| > 0 && |ys| > 0
    ensures Srcset(basePath, extension, Some(xs + ys))
         == Srcset(basePath, extension, Some(xs)) + ", " + Srcset(basePath, extension, Some(ys))
  {
    var a := SrcsetEntries(basePath, extension, xs);
    var b := SrcsetEntries(basePath, extension, ys);
    var c := SrcsetEntries(basePath, extension, xs + ys);
    forall i | 0 <= i < |c| ensures c[i] == (a + b)[i] {
      if i < |xs| {
        assert (xs + ys)[i] == xs[i];
      } else {
        assert (xs + ys)[i] == ys[i - |xs|];
      }
    }
    assert c == a + b;
    JoinConcat(a, b, ", ");
  }

  /** A single width gives a single candidate. */
  lemma SrcsetSingle(basePath: string, extension: string, size: int)
    ensures Srcset(basePath, extension, Some([size])) == SrcsetEntry(basePath, extension, size)
  {
    assert SrcsetEntries(basePath, extension, [size]) == [SrcsetEntry(basePath, extension, size)];
  }

  /** The default srcset lists the four default widths in order. */
  lemma SrcsetDefault(basePath: string, extension: string)
    ensures Srcset(basePath, extension, None)
         == SrcsetEntry(basePath, extension, 300) + ", " + SrcsetEntry(basePath, extension, 600) + ", "
            + SrcsetEntry(basePath, extension, 900) + ", " + SrcsetEntry(basePath, extension, 1200)
  {
    assert Srcset(basePath, extension, None) == Srcset(basePath, extension, Some([300, 600, 900, 1200]));
    assert [300] + [600] == [300, 600];
    assert [300, 600] + [900] == [300, 600, 900];
    assert [300, 600, 900] + [1200] == [300, 600, 900, 1200];
    SrcsetSingle(basePath, extension, 300);
    SrcsetSingle(basePath, extension, 600);
    SrcsetSingle(basePath, extension, 900);
    SrcsetSingle(basePath, extension, 1200);
    SrcsetAppend(basePath, extension, [300], [600]);
    SrcsetAppend(basePath, extension, [300, 600], [900]);
    SrcsetAppend(basePath, extension, [300, 600, 900], [1200]);
  }

  /** Each candidate ends with its width descriptor, whose digits read back
      as the width. */
  lemma SrcsetEntryWidth(basePath: string, extension: string, size: int)
    requires -(Pow10(21) as int) < size < Pow10(21)
    ensures var d := NumberToString(size); var e := SrcsetEntry(basePath, extension, size);
            |d| + 2 <= |e| && e[|e| - |d| - 2..] == " " + d + "w" && ParseInt(d) == Some(size)
  {
    EntrySuffix(basePath, extension, size);
    ParseIntNumberToString(size);
  }

  lemma EntrySuffix(basePath: string, extension: string, size: int)
    ensures var d := NumberToString(size); var e := SrcsetEntry(basePath, extension, size);
            |d| + 2 <= |e| && e[|e| - |d| - 2..] == " " + d + "w"
  {
    var d := NumberToString(size);
    DescriptorSuffix(basePath + "_" + d + "w." + extension, d);
  }

  lemma DescriptorSuffix(prefix: string, d: string)
    ensures var e := prefix + " " + d + "w";
            |d| + 2 <= |e| && e[|e| - |d| - 2..] == " " + d + "w"
  {
    var e := prefix + " " + d + "w";
    assert e == prefix + (" " + d + "w");
  }

  // ---------------------------------------------------------------------------
  // getOptimizedImage
  // ---------------------------------------------------------------------------

  /** getOptimizedImage: with WebP support, the first ".png" of the path
      becomes ".webp" (String.prototype.replace with a string pattern);
      otherwise the path is returned as it is. */
  function OptimizedImage(imagePath: string, webpSupported: bool): (r: string)
    ensures |r| == |imagePath| + (if webpSupported && IndexOf(imagePath, ".png", 0).Some? then 1 else 0)
  {
    var i := IndexOf(imagePath, ".png", 0);
    if webpSupported && i.Some? then imagePath[..i.value] + ".webp" + imagePath[i.value + 4..]
    else imagePath
  }

  /** Without WebP support, or without ".png" in it, the path is unchanged. */
  lemma OptimizedImageUnchanged(imagePath: string, webpSupported: bool)
    requires !webpSupported || !Contains(imagePath, ".png")
    ensures OptimizedImage(imagePath, webpSupported) == imagePath
  {
    IndexOfFindsContained(imagePath, ".png");
  }

  /** With WebP support the first occurrence of ".png", and only it, is
      replaced. */
  lemma OptimizedImageFirstPng(imagePath: string, i: nat)
    requires OccursAt(imagePath, ".png", i)
    requires forall j :: 0 <= j < i ==> !OccursAt(imagePath, ".png", j)
    ensures OptimizedImage(imagePath, true) == imagePath[..i] + ".webp" + imagePath[i + 4..]
  {
  }

  /** Putting ".png" back where ".webp" was inserted restores the path. */
  lemma OptimizedImageRestore(imagePath: string)
    requires Contains(imagePath, ".png")
    ensures var i := IndexOf(imagePath, ".png", 0).value; var r := OptimizedImage(imagePath, true);
            i + 5 <= |r| && r[i..i + 5] == ".webp" && r[..i] + ".png" + r[i + 5..] == imagePath
  {
    IndexOfFindsContained(imagePath, ".png");
    var i := IndexOf(imagePath, ".png", 0).value;
    SpliceRestore(imagePath, i, ".png", ".webp");
  }

  /** Replacing `pat` at `i` by `rep` can be undone by replacing `rep` back. */
  lemma SpliceRestore(s: string, i: nat, pat: string, rep: string)
    requires OccursAt(s, pat, i)
    ensures var r := s[..i] + rep + s[i + |pat|..];
            i + |rep| <= |r| && r[i..i + |rep|] == rep && r[..i] + pat + r[i + |rep|..] == s
  {
    var r := s[..i] + rep + s[i + |pat|..];
    assert r[..i] == s[..i];
    assert r[i + |rep|..] == s[i + |pat|..];
    assert s == s[..i] + s[i..i + |pat|] + s[i + |pat|..];
  }
}
