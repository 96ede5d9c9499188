# White-border photo tool, modelled in Dafny

The application is a single React component (`src/App.tsx`). The user drops or
picks a photo. The app shows it inside a white matte whose thickness follows a
0–50 % slider. It then exports the photo with that white border as a PNG. This
project models the three parts of the component that have behaviour worth
stating:

- **Border rule** (`border.dfy`, module `Border`). The thickness is the longer
  image edge scaled by the slider percentage and by `BORDER_SCALE = 0.05`, then
  rounded with `Math.round`. It is computed over exact integers, as the integer
  nearest to
  `max(w, h) * pct / 2000`, with ties going up. The preview's `borderPx` and the
  export's `borderSize` are both this one function.
- **Export compositing** (`raster.dfy`, module `Raster`, and `canvas.dfy`, module
  `Canvas`). `Raster` gives the meaning of the canvas operations as functions on
  raster values: `fillRect` over the whole canvas, and `drawImage` at an offset,
  unscaled and composited source-over onto the opaque canvas. `Canvas.Canvas` is
  the `<canvas>` as a class over an `array2` of pixels. Its `FillAll` and
  `DrawImage` methods overwrite that array in place with nested loops.
  `Canvas.Composite` performs the export's steps and is proved to produce
  `Raster.Composited`.
- **Download name** (`download_name.dfy`, module `DownloadName`). The regular
  expression `\.[^.]+$` can only match at the last `.` of the name, and only when
  a character follows that dot. The model finds the last dot and cuts from it to
  the end when it is not the final character.
- **Interaction shell** (`shell.dfy`, class `Shell.App`). It holds the six React
  state fields and the browser state the handlers touch: object URLs as fresh
  numbers, the set of revoked URLs, and the list of downloads emitted. Every
  handler is a method. `handleDownload` is split at its `await`: `BeginDownload`
  runs up to the suspend point, and `FinishDownload` runs once the decode has
  settled. `HandleDownload` composes them for a run in which no other event
  interleaves. The decode outcome and the availability of a 2-D context are
  inputs to `FinishDownload`.

`Shell.App.DownloadEnabled` says when the download button is usable: an image is
loaded and no download is in progress. `FinishDownload` states that it holds
again exactly when an image is loaded.

`src/App.tsx` uses a linear formula on the natural size for both the preview and
the export. It has no easing, no 1 px floor and no display-scale factor, so a
non-zero percentage can round to 0 px on a small image.

The drop zone, with its file input and drag handlers, is rendered only while no
image URL is set. The model nevertheless allows `HandleFileInput`, `HandleDrop`,
`HandleDragOver` and `HandleDragLeave` in any state, so `SetFile`'s revoke of a
previous URL is covered even though the rendered app never reaches it.
`HandleImageLoad`, by contrast, requires an image URL, as its `<img>` exists only
then.

## Model

| member | source | states |
|---|---|---|
| `Border.LongestEdge` | src/App.tsx:33 | the result is one of the two edges and is at least each of them |
| `Border.Round` | src/App.tsx:32-36 | the result is `Math.round(num/den)`: 2·den·r − den ≤ 2·num < 2·den·r + den (nearest integer, a tie going up) |
| `Border.RoundUnique` | src/App.tsx:32-36 | only one integer satisfies that rounding relation |
| `Border.RoundIsNearest` | src/App.tsx:32-36 | no integer k is closer to num/den than the rounded value |
| `Border.RoundMonotone` | src/App.tsx:32-36 | rounding preserves the order of its arguments |
| `Border.Thickness` | src/App.tsx:32-36 | the thickness is the rounding of longestEdge·pct·(1/100)·(1/20), with BORDER_SCALE = 0.05 |
| `Border.BorderPx` | src/App.tsx:28-37 | 0 while no natural size is known; otherwise the thickness for the size's longer edge |
| `Border.ZeroWithoutSize` | src/App.tsx:29-31 | without a known image size the border is 0 px at every percentage |
| `Border.ZeroPercentIsZero` | src/App.tsx:32-36 | 0 % gives 0 px for every image |
| `Border.ZeroEdgeIsZero` | src/App.tsx:32-36 | a zero-sized image gets 0 px at every percentage |
| `Border.SwapInvariant` | src/App.tsx:33 | swapping width and height does not change the border |
| `Border.MonotoneInPct` | src/App.tsx:32-36 | raising the percentage never makes the border thinner |
| `Border.MonotoneInEdge` | src/App.tsx:32-36 | a longer edge never gets a thinner border |
| `Border.CappedBySliderMax` | src/App.tsx:187-190 | within the slider's 0..50 the border is at most its value at 50, which is (edge + 20) / 40 |
| `Border.DefaultOnLandscapeExample` | src/App.tsx:8 | at the default 4 % a 1000x500 image gets exactly 2 px |
| `Raster.Mix` | src/App.tsx:102 | one colour channel composited with alpha a: the source value at a = 255, the destination at a = 0, always between the two |
| `Raster.Over` | src/App.tsx:102 | source-over onto an opaque pixel stays opaque; an opaque source replaces it, a fully transparent one leaves it |
| `Raster.Filled` | src/App.tsx:100-101 | a width x height raster in which every pixel is the fill colour |
| `Raster.Drawn` | src/App.tsx:102 | keeps the canvas's size; covered pixels are the source at (x − dx, y − dy) composited over the canvas, and the rest are unchanged |
| `Raster.Composited` | src/App.tsx:91-102 | the exported raster: a white-filled (w + 2b) x (h + 2b) canvas with the source drawn at (b, b); it is (w + 2b) x (h + 2b) and fully opaque |
| `Raster.CompositedBorderIsWhite` | src/App.tsx:100-101 | every pixel outside [b, b+w) x [b, b+h) is white |
| `Raster.CompositedInteriorIsSource` | src/App.tsx:102 | every pixel inside the centred region is the source pixel at (x − b, y − b) over white, and exactly that pixel where the source is opaque: no scaling |
| `Raster.CropUndoesComposite` | src/App.tsx:100-102 | cutting b pixels off every side of the export of an opaque image gives the image back |
| `Raster.ZeroBorderIsIdentity` | src/App.tsx:92-102 | with b = 0 an opaque image is exported unchanged |
| `Canvas.Canvas.constructor` | src/App.tsx:91-93 | a fresh canvas of the requested size, every pixel transparent black |
| `Canvas.Canvas.Snapshot` | src/App.tsx:108 | the raster read back from the canvas (what `toDataURL` encodes) has the canvas's size and pixels |
| `Canvas.Canvas.FillAll` | src/App.tsx:100-101 | with an opaque colour, after the fill loops the canvas holds `Filled(width, height, colour)` |
| `Canvas.Canvas.DrawImage` | src/App.tsx:102 | after the copy loops the canvas holds `Drawn(old canvas, src, dx, dy)` |
| `Canvas.Composite` | src/App.tsx:91-102 | returns a fresh (w + 2b) x (h + 2b) canvas whose contents are `Composited(src, b)` |
| `DownloadName.LastDot` | src/App.tsx:106 | finds a '.' with no '.' after it, or reports that the name has no '.' |
| `DownloadName.LastDotFindsExtension` | src/App.tsx:106 | wherever the pattern matches, it starts at the last dot, and a last dot that is not the final character is a match |
| `DownloadName.ExtensionUnique` | src/App.tsx:106 | the pattern matches at most one position, so one replacement removes the whole match |
| `DownloadName.StripExtension` | src/App.tsx:106 | where the pattern matches at i the result is the name before i; where it matches nowhere, the name itself |
| `DownloadName.StripIsPrefix` | src/App.tsx:106 | the stem is a prefix of the name, and when it differs what was cut is exactly one final extension |
| `DownloadName.DownloadName` | src/App.tsx:105-107 | a missing or empty name gives `white-border.png`; otherwise the stem followed by `-white-border.png` |
| `DownloadName.AlwaysEndsInFallback` | src/App.tsx:105-107 | every download name ends in `white-border.png` |
| `DownloadName.ExtensionReplaced` | src/App.tsx:106 | a name with a final extension loses only that extension |
| `DownloadName.NameWithoutExtensionKept` | src/App.tsx:106 | a name with no dot, or ending in a dot, is kept whole before the suffix |
| `DownloadName.MultiDotExample` | src/App.tsx:106 | `a.b.jpg` becomes `a.b-white-border.png` |
| `DownloadName.TrailingDotExample` | src/App.tsx:106 | `photo.` becomes `photo.-white-border.png` |
| `DownloadName.DotfileExample` | src/App.tsx:106 | `.png` becomes `-white-border.png`: the whole name is the match |
| `Shell.App.constructor` | src/App.tsx:8-16 | initial state: 4 %, no URL, name or size, not dragging, not downloading |
| `Shell.App.PreviewBorderPx` | src/App.tsx:28-37 | the previewed border is 0 while the size is unknown or the percentage is 0 |
| `Shell.App.SetFile` | src/App.tsx:39-50 | no file leaves every field unchanged; otherwise the old URL is revoked, a fresh URL and the file's name are set, the size is cleared (so the preview border is 0), and nothing else changes |
| `Shell.App.HandleFileInput` | src/App.tsx:52-55 | the same effect as `setFile` on the chosen file |
| `Shell.App.HandleDrop` | src/App.tsx:57-62 | the drag highlight is cleared, then the effect of `setFile` on the dropped file |
| `Shell.App.HandleDragOver` | src/App.tsx:64-67 | the drag highlight is set |
| `Shell.App.HandleDragLeave` | src/App.tsx:69-71 | the drag highlight is cleared |
| `Shell.App.HandleImageLoad` | src/App.tsx:115-118 | the image size becomes the preview's natural size |
| `Shell.App.SetBorderPct` | src/App.tsx:184-191 | the percentage becomes the slider's value, kept within 0..50 |
| `Shell.App.BeginDownload` | src/App.tsx:73-77 | no URL: nothing changes and nothing starts; otherwise the busy flag is raised before the decode and the percentage and name are captured |
| `Shell.App.FinishDownload` | src/App.tsx:78-112 | the busy flag is cleared on every path; a download is emitted only when the decode succeeded and a context exists, with the derived name and the composited raster; the button is enabled afterwards exactly when an image is loaded |
| `Shell.App.HandleDownload` | src/App.tsx:73-113 | without a URL nothing changes; otherwise the flag ends false and exactly the download of `Outcome` is appended, or none |
| `Shell.ExportBorder` | src/App.tsx:86-90 | the export's `borderSize` is the preview's `BorderPx` for the decoded image's size, i.e. the rounding of longestEdge·pct/2000 |
| `Shell.Outcome` | src/App.tsx:78-109 | what a started download produces: never "no image"; a decode error gives `DecodeFailed`, a missing context `NoContext`; a download exactly when both succeed, named by `DownloadName` and sized (w + 2b) x (h + 2b) |
| `Shell.App.DownloadEnabled` | src/App.tsx:200 | the button is enabled exactly when it is not disabled by a missing image or a download in progress; an enabled button always has a file name |
| `Shell.App.Unmount` | src/App.tsx:19-25 | at unmount the live URL, if any, is added to the revoked set, and afterwards every URL ever created is revoked |
| `Shell.PreviewMatchesExport` | src/App.tsx:86-93 | for an image whose natural size the preview knows, the exported canvas is (w + 2b) x (h + 2b), with b the previewed border |
| `Shell.DefaultExportExample` | src/App.tsx:86-93 | a 1000x500 image at 4 % is exported at 1004x504 |
| `Shell.ZeroPercentExportsSource` | src/App.tsx:86-102 | at 0 % an opaque image is exported exactly as decoded |

## Left out

- scripts/generate-icons.mjs and vite.config.ts are not part of this model. They are build-time file I/O, image-library calls and build configuration.
- The JSX markup, the CSS classes and the `--border-px` style variable are presentation only.
- The `useEffect` cleanup also runs when the URL changes, where it revokes the previous URL a second time after `setFile` already did. Revoking twice leaves the revoked set as it was, so that run is not a separate transition. Its run at unmount, which is the only place the live URL is released, is `Shell.App.Unmount`.
- Floating point: the thickness is `Math.round` of the exact rational `maxEdge·pct/2000`. Near a .5 boundary the IEEE product in JavaScript could land on the other side.
- Image decoding, `getContext('2d')`, PNG encoding and `link.click()` are not modelled as computations. The decode outcome and the context's availability are inputs. The download is recorded as a name and a raster value.
- `Shell.App.FinishDownload`: the decode outcome is not tied to whether the decoded URL has been revoked in the meantime.
- `Raster.Over`: translucent source pixels are blended with one rounding rule, the nearest byte of the straight-alpha mix. Browsers composite premultiplied pixels with their own rounding. Opaque and fully transparent source pixels are exact.
- `Canvas.Canvas.DrawImage`: drawing is modelled only onto an opaque canvas, which is the only case the export reaches because it fills white first. Compositing onto translucent pixels is not modelled.
- `Canvas.Canvas.FillAll`: `fillRect` is modelled only over the whole canvas and only with an opaque colour, which is how the export calls it (opaque `#ffffff`). A translucent fill would blend with the canvas instead.
- Browser limits on canvas size are not modelled. Such a limit would make a very large export fail.
- `Shell.App.HandleDownload`: it assumes no event runs during the `await`. Interleavings are covered by calling `BeginDownload` and `FinishDownload` separately, but this model has no lemma about any particular interleaving. React's closure captures `borderPct` and `fileName` at click time, and `Pending` carries exactly those values.
- React render scheduling and the batching of state setters are not modelled. Each setter is an immediate write, in source order.
- A rejected decode leaves `handleDownload`'s promise rejected and unhandled. The model reports this as the `DecodeFailed` result instead.
