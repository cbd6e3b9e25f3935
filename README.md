# Blog toys: a verified model of their computational kernels

The repository holds several small browser programs. This project models the
parts of four of them that compute something, and proves what that code
promises.

- **CSG**: a drawing canvas whose opaque pixels are covered by rectangles.
  The quad-tree tiler `qtree` computes the rectangles. The canvas paints a
  round brush into an RGBA buffer. It draws the tiles and converts them to
  clip-space boxes for the ray marcher. The model's mouse-up handler tiles
  with minimum size 1: the source passes none, which makes the tiler loop on
  empty rectangles (see ## Findings). The WebGL renderer packs circles into
  a 128 x 128 RGBA texture.
- **MaTSlab**: a notebook of TypeScript cells. The model covers:
  - the figure-pane tree: drag, close, split, add a figure, activate a figure
    and move a tab, together with the normalisation passes `removeSingle`,
    `ensureRoot`, `ensureFill` and `filterAllEmpty`;
  - the `Vec`/`Mat` numerics and `linspace`/`meshgrid`;
  - the source rewriting a cell performs before running: stripping `export`
    and `import` lines, and collecting the exported names;
  - the figure list (`addFig`, `removeFig`, `plot`);
  - the app's cell list (add, remove, rename, update, clear all, and the
    debounced text update).
- **newton-fractals**: the renderer's table of shader uniforms (find, get,
  assign and locate), the canvas resize, the 20-frame FPS window and the
  control flow of `render`.
- **shady-business**:
  - the lazy interval refiners behind the day and year sweeps;
  - the flux/time accumulation buffer and its colour-mapped image;
  - the pixel/world unit conversions and the press handler;
  - the shadow projection of prisms and houses;
  - the app's shape-list edits.

Each core source file is one module. The module names are:
- CSG: `qtree.ts` is `QuadTree`, `canvas.tsx` is `CsgCanvas` and `webgl.ts` is
  `CsgWebGL`.
- MaTSlab: `figure-panes.tsx` is `FigurePanes`, `globals-impl.ts` is
  `GlobalsImpl`, `cell.tsx` is `CellSource`, `use-figs.ts` is `UseFigs` and
  `app.tsx` is `MatslabApp`.
- newton-fractals: `webgl-renderer.ts` is `NewtonRenderer`.
- shady-business: `refiners.ts` is `Refiners`, `flux-buffer.ts` is
  `FluxBuffers`, `shape-utils.tsx` is `ShapeUnits`, `project.ts` is
  `Projection` and `app.tsx` is `ShadyApp`. The three shape files
  (`rect.tsx`, `house.tsx`, `image.tsx`) share one module, `Shapes`.

Two shared modules hold what several files use: `Wrappers`
has the `Option`/`Result` types, and `Raster` has bytes, images and RGBA
indexing. Code that mutates objects or arrays is written as classes with
`modifies` clauses or as methods over arrays:
- CSG's `DrawableCanvas` and `WebGLRenderer`;
- the newton `WebGLRenderer`;
- the shady `FluxBuffer`;
- MaTSlab's trace accumulator and text debouncer.

The `qtree` loop is a method over its two work lists. The pane tree, which the
source mutates through a path of indices, is modelled on values: a path
`Descend`s to a node and `ReplaceAt` rebuilds the tree around it. The loops of
the source (`enumerateFigs`, `getLeaf`, the drag rescale, `linspace`,
`meshgrid`, the refiner rounds, the uniform-location loop and the regex match
loop) are methods proved equal to specification functions.

Numbers are modelled as mathematical reals and integers. Where JavaScript
would produce `NaN` or `Infinity` and the source does not guard against it, a
precondition excludes that input (see "Left out").

## Model

| member | source | states |
|---|---|---|
| QuadTree.Size | CSG/src/qtree.ts:8-12 | width and height are right-left+1 and bottom-top+1; a rectangle is empty exactly when one of them is 0 or less, and a well-formed one has both at least 0 |
| QuadTree.EmptyIffNoPixel | CSG/src/qtree.ts:8-12 | a rectangle has non-positive width or height exactly when it covers no pixel |
| QuadTree.MakeQuads | CSG/src/qtree.ts:14-24 | four quadrants, split at the rounded-down midpoints; for a well-formed rectangle they cover every pixel of it exactly once and nothing outside it |
| QuadTree.QuadsWithin | CSG/src/qtree.ts:14-24 | every quadrant of a rectangle inside the image is inside the image and covers only the rectangle's pixels |
| QuadTree.MinOf | CSG/src/qtree.ts:59 | `Math.min(...)` of a non-empty list is a member of it and at most every member |
| QuadTree.MaxOf | CSG/src/qtree.ts:60 | `Math.max(...)` of a non-empty list is a member of it and at least every member |
| QuadTree.MergeH | CSG/src/qtree.ts:55-63 | fails exactly on an empty list, with "Must provide rects to merge"; otherwise spans from the least left edge to the greatest right edge, both taken from the inputs, at the first rectangle's top and bottom |
| QuadTree.MergeV | CSG/src/qtree.ts:65-73 | fails exactly on an empty list, with the same message; otherwise spans from the least top to the greatest bottom, both taken from the inputs, at the first rectangle's left and right |
| QuadTree.MergeHAdjacent | CSG/src/qtree.ts:55-63 | merging two side-by-side rectangles of one row band succeeds and covers exactly the union of their pixels |
| QuadTree.MergeVAdjacent | CSG/src/qtree.ts:65-73 | merging two stacked rectangles of one column band succeeds and covers exactly the union of their pixels |
| QuadTree.Classify | CSG/src/qtree.ts:26-53 | the min/max alpha scan returns Clear when the rectangle is non-empty and every alpha is 0, Full when every alpha is 255, and Partial otherwise (an empty rectangle is Partial, because min stays Infinity) |
| QuadTree.ScanColumn | CSG/src/qtree.ts:33-44 | one column of the scan keeps min and max equal to the extreme alphas of all columns scanned so far |
| QuadTree.ScanPixel | CSG/src/qtree.ts:34-43 | one pixel of the scan keeps min and max equal to the extreme alphas seen so far |
| QuadTree.QTree | CSG/src/qtree.ts:75-147 | the only error is "Loop still running"; every output rectangle is non-empty, inside the image and fully opaque; outputs are pairwise disjoint; with minSize at most 1 every opaque pixel is covered exactly once and no other pixel is covered; an image narrower or shorter than minSize gives no rectangles; with minSize at most 0 an image one pixel wide or tall always ends in the error, because an empty rectangle, once pushed, never leaves the work stack |
| QuadTree.ClassifyQuads | CSG/src/qtree.ts:91 | the four classes are the classes of the four quadrants, in order |
| QuadTree.TilingDone | CSG/src/qtree.ts:83-146 | once the work stack is empty, the loop invariant gives pairwise disjoint outputs and, for minSize at most 1, exact coverage of the opaque pixels |
| QuadTree.Split | CSG/src/qtree.ts:93-140 | the case analysis on the four classes preserves the loop invariant: each pixel of the popped rectangle moves to at most one pushed or output rectangle, and each opaque one moves to exactly one; the rest of the stack is kept below what is pushed, and a popped rectangle at most one pixel wide or tall always pushes an empty rectangle |
| QuadTree.SplitSides | CSG/src/qtree.ts:93-115 | the same for the whole-rectangle, left-pair and right-pair cases |
| QuadTree.SplitRows | CSG/src/qtree.ts:116-131 | the same for the bottom-pair and top-pair cases |
| QuadTree.NarrowQuads | CSG/src/qtree.ts:14-24 | a rectangle at most one pixel wide has empty top-right and bottom-right quadrants, one at most one pixel tall has empty bottom quadrants, and a rectangle at least 2×2 has no empty quadrant |
| QuadTree.NarrowSplit | CSG/src/qtree.ts:26-53 | for a narrow rectangle, neither the right nor the bottom pair is opaque, and in the left-pair and top-pair cases the quadrant pushed first is empty and classed 0.5 |
| QuadTree.ClassedHoldsEmpty | CSG/src/qtree.ts:132-139 | an empty quadrant classed 0.5 is among those the fallback case pushes |
| QuadTree.StuckStays | CSG/src/qtree.ts:83-90 | an empty rectangle on the work stack is still there after the next split |
| QuadTree.PixelClass | CSG/src/qtree.ts:26-53 | a one-pixel rectangle classes 1 when its alpha is 255 and 0 when its alpha is 0 |
| QuadTree.CornerBlockPushesPixel | CSG/src/qtree.ts:90-107 | a 2×2 block whose only transparent pixel is bottom-right classes its quadrants 1, 1, 0, 1, so the left-pair case pushes the one-pixel top-right quadrant, which is narrow |
| QuadTree.SplitWhole | CSG/src/qtree.ts:93-99 | four opaque quadrants output the popped rectangle itself and push nothing |
| QuadTree.SplitLeft | CSG/src/qtree.ts:100-107 | the vertical merge of quadrants 0 and 3 is output; quadrants 1 and 2 are pushed unless Clear, in that order |
| QuadTree.SplitRight | CSG/src/qtree.ts:108-115 | the vertical merge of quadrants 1 and 2 is output; quadrants 0 and 3 are pushed unless Clear |
| QuadTree.SplitBottom | CSG/src/qtree.ts:116-123 | the horizontal merge of quadrants 2 and 3 is output; quadrants 0 and 1 are pushed unless Clear |
| QuadTree.SplitTop | CSG/src/qtree.ts:124-131 | the horizontal merge of quadrants 0 and 1 is output; quadrants 2 and 3 are pushed unless Clear |
| QuadTree.PushRest | CSG/src/qtree.ts:100-131 | the merged pair is appended to the output, the other two quadrants are pushed unless Clear, and the loop invariant is kept |
| QuadTree.PushEach | CSG/src/qtree.ts:132-139 | the Full quadrants are appended to the output and the Partial ones pushed, in quadrant order; the loop invariant is kept |
| QuadTree.CountedIsCovered | CSG/src/qtree.ts:83-146 | a pixel counted by the list of outputs lies in one of them |
| Raster.RowColumn | CSG/src/canvas.tsx:216-217 | the row `floor(i/4/width)` and column `i/4 - row*width` of byte i are in range and identify the pixel whose four bytes contain i |
| CsgCanvas.Ceil | CSG/src/canvas.tsx:212 | `Math.ceil` is the least integer at or above its argument |
| CsgCanvas.WindowCoversBrush | CSG/src/canvas.tsx:206-213 | every byte of a pixel inside the brush disc lies in the scanned window [iMin, iMax) |
| CsgCanvas.BrushWithinScan | CSG/src/canvas.tsx:206-213 | the same, for all bytes of the buffer at once |
| CsgCanvas.ScanAligned | CSG/src/canvas.tsx:206-213 | iMin and iMax are multiples of 4, so the stride-4 loop visits whole pixels |
| CsgCanvas.DrawableCanvas.constructor | CSG/src/canvas.tsx:26-42 | the mounted canvas has a zeroed width x height RGBA buffer and no rectangles yet |
| CsgCanvas.DrawableCanvas.Paint | CSG/src/canvas.tsx:198-228 | without a context nothing changes; otherwise exactly the bytes of pixels strictly within radius 30 of (x, y) become 255 and every other byte keeps its value |
| CsgCanvas.DrawableCanvas.PaintScan | CSG/src/canvas.tsx:215-226 | the loop over [iMin, iMax) whitens exactly the in-brush pixels of that window |
| CsgCanvas.DrawableCanvas.PaintCell | CSG/src/canvas.tsx:219-225 | one pixel is whitened when it is in the brush and left alone otherwise |
| CsgCanvas.DrawableCanvas.SetPixel | CSG/src/canvas.tsx:107-111 | the four bytes of one pixel take the colour and no other byte changes |
| CsgCanvas.DrawableCanvas.DrawRect | CSG/src/canvas.tsx:101-141 | a tile's pixels become grey on its border and opaque black inside; pixels outside it are unchanged |
| CsgCanvas.DrawableCanvas.FillBlack | CSG/src/canvas.tsx:105-113 | every pixel of the tile becomes opaque black |
| CsgCanvas.DrawableCanvas.FillColumn | CSG/src/canvas.tsx:106-112 | one column of the tile becomes opaque black |
| CsgCanvas.DrawableCanvas.DrawTopBottom | CSG/src/canvas.tsx:115-127 | the top and bottom rows of the tile become opaque grey |
| CsgCanvas.DrawableCanvas.DrawLeftRight | CSG/src/canvas.tsx:129-141 | the left and right columns of the tile become opaque grey |
| CsgCanvas.DrawableCanvas.PaintQTreeEdges | CSG/src/canvas.tsx:93-144 | the tiler's minimum size is a parameter: the source passes none, which acts as 0 and then always fails on a canvas one pixel wide or tall (see ## Findings). Without a context nothing changes; a tiler error leaves buffer and rectangles as they were; otherwise, with minimum size at most 1, the stored rectangles cover each formerly opaque pixel exactly once. They are disjoint, every covered pixel takes its tile's colour, other bytes keep their value, and no alpha byte changes |
| CsgCanvas.DrawingKeepsAlpha | CSG/src/canvas.tsx:108-140 | drawing tiles that are already fully opaque never changes an alpha byte |
| CsgCanvas.RectColor | CSG/src/canvas.tsx:101-141 | the colour drawn at a pixel of a tile is opaque |
| CsgCanvas.Painted | CSG/src/canvas.tsx:101-141 | the colour left at a pixel after drawing all tiles, when any tile covers it, is opaque |
| CsgCanvas.PaintedIsCovered | CSG/src/canvas.tsx:101-141 | a pixel gets a drawn colour exactly when some tile covers it |
| CsgCanvas.PaintedDisjoint | CSG/src/canvas.tsx:101-141 | with disjoint tiles, a covered pixel shows the colour of the one tile covering it |
| CsgCanvas.DrawableCanvas.UpdateWebGL | CSG/src/canvas.tsx:154-169 | boxes are sent exactly when there is a callback and stored rectangles; one box per rectangle, each converts back to its rectangle, and each has kind "box" and z 0 |
| CsgCanvas.DrawableCanvas.MouseUp | CSG/src/canvas.tsx:146-152 | the retiling runs first, with the corrected minimum size 1 (see ## Findings); after a successful retiling the stored rectangles cover each formerly opaque pixel exactly once, and the boxes are sent, one per stored rectangle; an error sends nothing |
| CsgCanvas.Boxes | CSG/src/canvas.tsx:157-166 | one box per rectangle, in order |
| CsgCanvas.RectToBox | CSG/src/canvas.tsx:157-166 | the clip-space box of a rectangle determines the rectangle: converting it back gives the rectangle again; its kind is "box" and its z is 0 |
| CsgCanvas.BoxesRoundTrip | CSG/src/canvas.tsx:157-166 | the same for every rectangle of a list |
| CsgCanvas.BoxInClipSpace | CSG/src/canvas.tsx:159-165 | a rectangle inside the canvas has its centre in [-1, 1] x [-1, 1] and a size below 1; y is flipped, so a rectangle lower on the canvas has a smaller y |
| CsgWebGL.Trunc | CSG/src/webgl.ts:196-198 | truncation toward zero: at or below a non-negative value, at or above a negative one, less than 1 away |
| CsgWebGL.ToUint8InRange | CSG/src/webgl.ts:196-198 | a value in [0, 256) is stored in a `Uint8Array` as its floor |
| CsgWebGL.ToUint8Wraps | CSG/src/webgl.ts:196-198 | an integer is stored as its residue modulo 256, so adding 256 does not change the byte |
| CsgWebGL.TextureLayout | CSG/src/webgl.ts:188-199 | the texture has 4 x 128 x 128 bytes, and circle j (j below 16384) occupies bytes 4j to 4j+3 as x, y and r times 255, then 0 |
| CsgWebGL.CircleTexture | CSG/src/webgl.ts:186-199 | the buffer holds 4·128·128 bytes, and the bytes past the last circle stay 0 |
| CsgWebGL.TextureIgnoresExtra | CSG/src/webgl.ts:187-195 | circles beyond the first 16384 do not affect the texture |
| CsgWebGL.WriteTexel | CSG/src/webgl.ts:196-199 | one loop pass writes one circle's four bytes and nothing else |
| CsgWebGL.WebGLRenderer.constructor | CSG/src/webgl.ts:84-85 | a new renderer has no texture size and nothing uploaded |
| CsgWebGL.WebGLRenderer.MakeCircleData | CSG/src/webgl.ts:186-203 | the fresh buffer is the specified texture of the circles, the size is 128 x 128 and is recorded as the texture size |
| CsgWebGL.WebGLRenderer.UpdateTexture | CSG/src/webgl.ts:212-233 | with a GL context the buffer is uploaded at the given size; without one nothing changes |
| CsgWebGL.WebGLRenderer.UpdateCircles | CSG/src/webgl.ts:205-210 | with a GL context the uploaded texture is the circles' 128 x 128 texture; without one nothing is uploaded |
| FigurePanes.EnumerateFigs | MaTSlab/src/figure-panes.tsx:711-719 | the accumulator is extended with the figure numbers of the tree's leaves, left to right |
| FigurePanes.FindFirstLeaf | MaTSlab/src/figure-panes.tsx:721-726 | the result is the leaf reached by always taking the first child (the all-zeros path of length `LeftDepth`), and it fails, with the missing-slot error, exactly when that path ends at an empty pane array; the leaf's figures are a prefix of the tree's figures |
| FigurePanes.Descend | MaTSlab/src/figure-panes.tsx:67-72 | following a path fails only with "Unexpected lack of Array" or the missing-slot error |
| FigurePanes.DescendAppend | MaTSlab/src/figure-panes.tsx:67-72 | following a path and then one more index is following the longer path |
| FigurePanes.Navigate | MaTSlab/src/figure-panes.tsx:101-107 | the navigation loop ends where `Descend` says, or with its error |
| FigurePanes.DescendPrefixFails | MaTSlab/src/figure-panes.tsx:67-72 | a path whose k-th step fails fails with that step's error |
| FigurePanes.DescendReplace | MaTSlab/src/figure-panes.tsx:84 | after replacing the node at a path, the path leads to the new node |
| FigurePanes.ReplaceSelf | MaTSlab/src/figure-panes.tsx:84 | replacing a node by itself leaves the tree unchanged |
| FigurePanes.FigsReplace | MaTSlab/src/figure-panes.tsx:84 | replacing a node changes the tree's figures by exactly the old node's figures out and the new node's in |
| FigurePanes.LeafAt | MaTSlab/src/figure-panes.tsx:175-188 | `getLeaf` succeeds exactly when the path leads to a leaf, returning it; a path to an array is "Unexpected Array" and a broken path keeps its navigation error |
| FigurePanes.GetLeaf | MaTSlab/src/figure-panes.tsx:175-188 | the loop version returns what `LeafAt` specifies |
| FigurePanes.LeafAtSetLeaf | MaTSlab/src/figure-panes.tsx:193-196 | after setting the leaf at one path, that path reads the new leaf and every other leaf path reads what it did before |
| FigurePanes.SetLeafFigs | MaTSlab/src/figure-panes.tsx:193-196 | setting a leaf changes the figures by exactly the old leaf's out and the new leaf's in |
| FigurePanes.SumFracsScaled | MaTSlab/src/figure-panes.tsx:90-92 | multiplying every fraction by c multiplies their sum by c |
| FigurePanes.SumFracsDivided | MaTSlab/src/figure-panes.tsx:690-696 | dividing every fraction by t divides their sum by t |
| FigurePanes.RemoveSingle | MaTSlab/src/figure-panes.tsx:654-665 | after `removeSingle` no pane array has exactly one child |
| FigurePanes.RemoveSingleFixes | MaTSlab/src/figure-panes.tsx:654-665 | a tree with no single-child array is left as it is, so the pass is idempotent |
| FigurePanes.RemoveSingleFigs | MaTSlab/src/figure-panes.tsx:654-665 | `removeSingle` keeps the figure sequence |
| FigurePanes.Keep | MaTSlab/src/figure-panes.tsx:674 | the kept items are exactly the items whose pane is not an empty array |
| FigurePanes.FilterEmpty | MaTSlab/src/figure-panes.tsx:672-675 | one level of filtering keeps the split and the node kind, drops exactly the children that are empty arrays, and leaves a leaf as it is |
| FigurePanes.FilterAllEmpty | MaTSlab/src/figure-panes.tsx:677-688 | the returned copy and the mutated input of `filterAllEmpty` are both the recursive filter of the tree |
| FigurePanes.KeepFigs | MaTSlab/src/figure-panes.tsx:674 | dropping empty children keeps the figure sequence |
| FigurePanes.FilterAll | MaTSlab/src/figure-panes.tsx:672-688 | dropping the empty child arrays at every depth keeps the figure sequence |
| FigurePanes.FilterAllDropsEmpty | MaTSlab/src/figure-panes.tsx:677-688 | every child left by the filter is the filter of a non-empty child of the original |
| FigurePanes.EnsureFill | MaTSlab/src/figure-panes.tsx:690-702 | after `ensureFill` the fractions of every non-empty array sum to 1; the figure sequence is kept, and so is the absence of single-child arrays |
| FigurePanes.FillLevel | MaTSlab/src/figure-panes.tsx:692-699 | one level of `ensureFill`: dividing by the total fills a split whose children are filled, and keeps its figures and the absence of single-child arrays |
| FigurePanes.EnsureRoot | MaTSlab/src/figure-panes.tsx:704-709 | an empty root becomes an empty leaf, any other root is kept, and the figures are unchanged |
| FigurePanes.NormaliseEdit | MaTSlab/src/figure-panes.tsx:650-652 | the `removeSingle` then `ensureFill` chain keeps the figures and leaves no single-child array and every array filled |
| FigurePanes.NormaliseClose | MaTSlab/src/figure-panes.tsx:137-143 | the four-pass chain after a close keeps the figure sequence |
| FigurePanes.Clamp | MaTSlab/src/figure-panes.tsx:77-83 | the new fraction is clamped into [0.1, 0.9] and kept when already inside |
| FigurePanes.Scale | MaTSlab/src/figure-panes.tsx:90-92 | each item's fraction is multiplied by the factor and its pane kept |
| FigurePanes.DragItems | MaTSlab/src/figure-panes.tsx:76-92 | a drag keeps the number of items, every pane, and the items before the handle, and sets the dragged fraction to the clamped sum |
| FigurePanes.DragItemsSplit | MaTSlab/src/figure-panes.tsx:76-92 | the items after the dragged one are all rescaled by one common factor: their total, less what the dragged item gained, over their total |
| FigurePanes.DeltaFrac | MaTSlab/src/figure-panes.tsx:62-64 | the drag delta is the mouse movement as a fraction of the parent's width (horizontal) or height (vertical) |
| FigurePanes.DragItemsKeepsSum | MaTSlab/src/figure-panes.tsx:85-92 | the rescale of the later items exactly compensates the change of the dragged fraction |
| FigurePanes.RescaledKeepsSum | MaTSlab/src/figure-panes.tsx:85-92 | setting the dragged fraction and scaling the later ones by the remainder over their total keeps the sum |
| FigurePanes.DragItemsCanGoNegative | MaTSlab/src/figure-panes.tsx:85-92 | the clamp does not protect the later items: a drag can give one of them a negative fraction |
| FigurePanes.DragSucceedsIff | MaTSlab/src/figure-panes.tsx:55-95 | a drag succeeds exactly when the path is non-empty and leads to a node |
| FigurePanes.Drag | MaTSlab/src/figure-panes.tsx:55-95 | a drag succeeds exactly when the path is non-empty and its parent is an array holding the last index; an empty path always fails |
| FigurePanes.DragEffect | MaTSlab/src/figure-panes.tsx:55-95 | a successful drag replaces the parent's items by their dragged version and keeps the figures |
| FigurePanes.OnDrag | MaTSlab/src/figure-panes.tsx:55-95 | the handler's loops compute `Drag` |
| FigurePanes.DragNode | MaTSlab/src/figure-panes.tsx:76-92 | the in-place update of the parent's items computes `DragItems` |
| FigurePanes.ScaleFrom | MaTSlab/src/figure-panes.tsx:90-92 | the rescale loop multiplies the fractions from the given index on and keeps the rest |
| FigurePanes.ToRemove | MaTSlab/src/figure-panes.tsx:114-122 | there is a figure to close exactly when the leaf has an active figure or any figure; without an active one it is the last |
| FigurePanes.Without | MaTSlab/src/figure-panes.tsx:126 | the filtered list has no copy of the value and the same count of every other value |
| FigurePanes.CloseFigureAsWritten | MaTSlab/src/figure-panes.tsx:118-127 | as written, closing removes the figure and activates the pre-removal second-to-last figure, or nothing for a single figure |
| FigurePanes.CloseFigureAsWrittenKeepsRemoved | MaTSlab/src/figure-panes.tsx:118-127 | on [2, 3] with 2 active the removed figure 2 stays active |
| FigurePanes.CloseFigure | MaTSlab/src/figure-panes.tsx:118-127 | corrected: the figure is removed, an active figure exists exactly when figures remain and it is one of them, and the result agrees with the source whenever the source's choice survives |
| FigurePanes.CloseEdit | MaTSlab/src/figure-panes.tsx:97-135 | uses the corrected close, see ## Findings. The close fails exactly when the path does not lead to a leaf, with that error, and reports the figure to remove |
| FigurePanes.DropSlotFigs | MaTSlab/src/figure-panes.tsx:131-133 | dropping a child without figures keeps the figure sequence |
| FigurePanes.ClosePaneFigs | MaTSlab/src/figure-panes.tsx:128-135 | closing an empty pane keeps the figures |
| FigurePanes.OnClose | MaTSlab/src/figure-panes.tsx:97-149 | uses the corrected close, see ## Findings. A close fails exactly when the path does not lead to a leaf, with that lookup's error; otherwise it names the figure to remove (the active one, else the last) and normalising keeps the edited tree's figures |
| FigurePanes.OnCloseFigs | MaTSlab/src/figure-panes.tsx:97-149 | after a close the tree's figures are the old ones minus the closed leaf's removed figure |
| FigurePanes.CloseEmptyPane | MaTSlab/src/figure-panes.tsx:128-135 | closing an empty pane removes its slot from the parent's items and keeps the rest in order |
| FigurePanes.CloseFigureLeaf | MaTSlab/src/figure-panes.tsx:124-127 | closing a figure leaves the leaf as `CloseFigure` says: the figure is gone and the active figure is one that remains |
| FigurePanes.SplitNode | MaTSlab/src/figure-panes.tsx:163-171 | the node put in place of the leaf is filled, has no single-child array, and holds exactly the old leaf's figures |
| FigurePanes.SplitEdit | MaTSlab/src/figure-panes.tsx:151-171 | a split fails exactly when the path does not lead to a leaf, with that error |
| FigurePanes.OnSplit | MaTSlab/src/figure-panes.tsx:151-173 | a split fails exactly when the path does not lead to a leaf, with that lookup's error; otherwise the normalised tree is filled with no single-child array |
| FigurePanes.OnSplitProps | MaTSlab/src/figure-panes.tsx:151-173 | after a split the path leads to the split node, and the normalised result keeps the figures |
| FigurePanes.AddFigEdit | MaTSlab/src/figure-panes.tsx:190-196 | adding a figure fails exactly when the path does not lead to a leaf, with that error |
| FigurePanes.OnAddFig | MaTSlab/src/figure-panes.tsx:190-198 | adding a figure fails exactly when the path does not lead to a leaf, with that lookup's error; otherwise the normalised tree is filled with no single-child array |
| FigurePanes.OnAddFigProps | MaTSlab/src/figure-panes.tsx:190-198 | the leaf gets the new figure appended and active, and the tree's figures gain exactly that figure |
| FigurePanes.OnSetActive | MaTSlab/src/figure-panes.tsx:200-207 | activating fails exactly when the path has no leaf, and does nothing exactly when the figure is not in the leaf |
| FigurePanes.OnSetActiveFigs | MaTSlab/src/figure-panes.tsx:200-207 | activating keeps the figures |
| FigurePanes.LeaveTarget | MaTSlab/src/figure-panes.tsx:221-225 | the tab's figure leaves the old leaf; its active figure changes only if it was that figure, to the last remaining one or none |
| FigurePanes.DragTabMoves | MaTSlab/src/figure-panes.tsx:213-231 | a tab dropped on another leaf without it moves the figure there, active, and removes it from the old leaf |
| FigurePanes.DragTabEdit | MaTSlab/src/figure-panes.tsx:213-231 | with no drop target or no dragged tab nothing changes; otherwise the edit fails exactly when either leaf cannot be found, and changes nothing exactly when the target already holds the figure |
| FigurePanes.OnDragTabEnd | MaTSlab/src/figure-panes.tsx:213-231 | the same cases after normalising, and a changed tree is filled with no single-child array |
| GlobalsImpl.VecBinary | MaTSlab/src/globals-impl.ts:28-36 | a vector argument of a different length throws with both lengths; otherwise the result has the receiver's length |
| GlobalsImpl.VecBinaryAt | MaTSlab/src/globals-impl.ts:8-36 | element i of the result applies the operation to element i of both vectors, or to element i and the number |
| GlobalsImpl.VecScalarIsFill | MaTSlab/src/globals-impl.ts:33-35 | a scalar argument acts as a vector filled with it |
| GlobalsImpl.VecAddSub | MaTSlab/src/globals-impl.ts:8-14 | adding then subtracting the same argument gives the vector back |
| GlobalsImpl.VecCommutes | MaTSlab/src/globals-impl.ts:8-18 | vector add and mul commute, failing together on a length mismatch |
| GlobalsImpl.VecMap | MaTSlab/src/globals-impl.ts:24-26 | `map` keeps the length and applies the function to each value and index |
| GlobalsImpl.Size | MaTSlab/src/globals-impl.ts:42-44 | the size is the row count and the first row's length; a matrix without rows has no first row |
| GlobalsImpl.MatZip | MaTSlab/src/globals-impl.ts:78-80 | the element-wise result has the receiver's shape and applies the operation entry by entry |
| GlobalsImpl.MatWithScalar | MaTSlab/src/globals-impl.ts:82 | the scalar result has the receiver's shape and applies the operation to every entry |
| GlobalsImpl.MatBinary | MaTSlab/src/globals-impl.ts:66-83 | a matrix argument succeeds exactly when the sizes match, the error naming the first mismatching dimension, and the result has the same size and entry-wise values; a number argument always succeeds, keeping the shape and combining every entry with the number |
| GlobalsImpl.MatMap | MaTSlab/src/globals-impl.ts:62-64 | `map` keeps the shape and applies the function to each entry and its indices |
| GlobalsImpl.LinspaceStepBound | MaTSlab/src/globals-impl.ts:91-93 | start + k·step is at most stop exactly when k is below the number of values |
| GlobalsImpl.LinspaceProps | MaTSlab/src/globals-impl.ts:86-96 | the values start at start, go up by step, never pass stop, and one more step would |
| GlobalsImpl.LinspaceNext | MaTSlab/src/globals-impl.ts:91-93 | each value is the previous plus step and at most stop |
| GlobalsImpl.LinspaceLast | MaTSlab/src/globals-impl.ts:91-93 | the last value plus step exceeds stop |
| GlobalsImpl.Linspace | MaTSlab/src/globals-impl.ts:86-96 | a step of 0 or less throws; otherwise the loop returns the specified values |
| GlobalsImpl.Meshgrid | MaTSlab/src/globals-impl.ts:98-113 | both grids have one row per y value and one column per x value; the x grid repeats x in every row and the y grid repeats y[i] along row i |
| GlobalsImpl.FillMeshRow | MaTSlab/src/globals-impl.ts:105-110 | one pass of the outer loop fills row i of both grids and nothing else |
| GlobalsImpl.ZerosLike | MaTSlab/src/globals-impl.ts:115-119 | a matrix of zeros of the same size; a matrix without rows fails |
| GlobalsImpl.AddZerosLike | MaTSlab/src/globals-impl.ts:66-83 | adding `zeros_like(m)` to a rectangular m gives m |
| GlobalsImpl.ApplyFunc | MaTSlab/src/globals-impl.ts:136-139 | the result has f of every value, in order |
| GlobalsImpl.ApplyFuncVecOrArray | MaTSlab/src/globals-impl.ts:136-139 | a vector and its plain array give the same result |
| GlobalsImpl.ApplyFuncCompose | MaTSlab/src/globals-impl.ts:136-139 | applying f and then g is applying their composition |
| CellSource.Split | MaTSlab/src/cell.tsx:162 | `split` never gives an empty list |
| CellSource.SplitPieces | MaTSlab/src/cell.tsx:162 | no piece holds the separator, and there is one more piece than separators |
| CellSource.JoinSplit | MaTSlab/src/cell.tsx:161-170 | joining the split pieces gives the text back |
| CellSource.SplitJoin | MaTSlab/src/cell.tsx:161-170 | splitting joined separator-free lines gives the lines back |
| CellSource.GetHeightCountsNewlines | MaTSlab/src/cell.tsx:368 | the editor height is 19 pixels per line plus one spare line |
| CellSource.StripExport | MaTSlab/src/cell.tsx:168 | removing a leading `export` keeps a suffix of the line |
| CellSource.StripExportProps | MaTSlab/src/cell.tsx:168 | a line not starting with `export` plus white space is unchanged; otherwise the keyword and all white space after it go |
| CellSource.StripJsLine | MaTSlab/src/cell.tsx:163-168 | the JavaScript pass blanks exactly the lines starting `export default`, `export {` or `import `, and otherwise removes a leading `export`, keeping a suffix of the line |
| CellSource.StripTsLine | MaTSlab/src/cell.tsx:175-180 | the TypeScript pass blanks the same lines and also indented imports, and otherwise removes a leading `export`, keeping a suffix |
| CellSource.TsBlanksJsBlanks | MaTSlab/src/cell.tsx:163-180 | every line the JavaScript pass blanks is blanked by the TypeScript pass too |
| CellSource.StripLine | MaTSlab/src/cell.tsx:161-182 | each pass blanks exactly the lines its rule names and removes a leading `export` from every other line, keeping a suffix |
| CellSource.StripLines | MaTSlab/src/cell.tsx:161-182 | stripping keeps the number of lines and rewrites each line by itself, so line numbers are preserved |
| CellSource.MatchAt | MaTSlab/src/cell.tsx:357-358 | a match of the export patterns at a position ends after it |
| CellSource.Exec | MaTSlab/src/cell.tsx:362 | `exec` returns a match at or after `lastIndex` that is a genuine match |
| CellSource.ExecLeftmost | MaTSlab/src/cell.tsx:362 | no match starts between `lastIndex` and the one returned; a miss means there is none |
| CellSource.AllMatchesGenuine | MaTSlab/src/cell.tsx:359-366 | every collected match is genuine and they do not overlap, in order |
| CellSource.AllMatchesComplete | MaTSlab/src/cell.tsx:359-366 | no match starts before the first collected one or between two collected ones |
| CellSource.AllMatchesStep | MaTSlab/src/cell.tsx:360-365 | the collection is the first match followed by the collection from its end |
| CellSource.GetMatches | MaTSlab/src/cell.tsx:359-366 | the `while` loop over `exec` collects exactly the specified matches |
| CellSource.Trim | MaTSlab/src/cell.tsx:157 | the result is the input with exactly its leading and trailing white space removed: a slice whose outside is all white space and whose ends are not; it is empty exactly when the input is all white space |
| CellSource.InFlatten | MaTSlab/src/cell.tsx:155-159 | a name is in the flattened list exactly when it is in one of the lists |
| CellSource.DedupeFromProps | MaTSlab/src/cell.tsx:160 | building the set keeps earlier names first, adds each new name once and loses none |
| CellSource.ExportedNames | MaTSlab/src/cell.tsx:153-160 | the exported names have no duplicates and are exactly the constant and dynamic names |
| CellSource.DedupeKeepsFirst | MaTSlab/src/cell.tsx:160 | the first name found stays first |
| CellSource.ConstantNamesListed | MaTSlab/src/cell.tsx:153-154 | every `export const/let/function/class` name is exported |
| CellSource.DynamicNamesListed | MaTSlab/src/cell.tsx:155-160 | every trimmed name of every `export { ... }` list is exported |
| UseFigs.MaxFrom | MaTSlab/src/use-figs.ts:108 | the reduce gives the largest figure number and the start value, whichever is larger |
| UseFigs.AddFig | MaTSlab/src/use-figs.ts:107-115 | the new number is at least 1, not yet used (1 for an empty list), and a figure without data is appended |
| UseFigs.AddFigIsLeastAbove | MaTSlab/src/use-figs.ts:107-115 | the new number is at most any positive number above every existing one |
| UseFigs.AddFigDistinct | MaTSlab/src/use-figs.ts:107-115 | adding a figure keeps the numbers distinct |
| UseFigs.RemoveFig | MaTSlab/src/use-figs.ts:117-119 | removing never makes the list longer |
| UseFigs.RemoveFigMembers | MaTSlab/src/use-figs.ts:117-119 | what remains is exactly the figures with other numbers |
| UseFigs.RemoveFigAbsent | MaTSlab/src/use-figs.ts:117-119 | removing an unused number changes nothing |
| UseFigs.RemoveFigIdempotent | MaTSlab/src/use-figs.ts:117-119 | after removal the number is gone, so removing again changes nothing |
| UseFigs.RemoveFigAppend | MaTSlab/src/use-figs.ts:117-119 | removal keeps the order of the remaining figures |
| UseFigs.ReplaceData | MaTSlab/src/use-figs.ts:39-52 | figures with the number get the data and a plot callback; the others are unchanged |
| UseFigs.PlotAsWritten | MaTSlab/src/use-figs.ts:23-52 | as written: the figure is looked up in the render-time snapshot, so a figure unknown to it is appended to the current list even if the list already has it |
| UseFigs.PlotAsWrittenDuplicates | MaTSlab/src/use-figs.ts:24-37 | two plots to a new figure number in one run give two figures with that number |
| UseFigs.Plot | MaTSlab/src/use-figs.ts:24-52 | corrected: the plotted number exists afterwards and holds the data, the list grows by one exactly when the number was new, and other figures are untouched |
| UseFigs.PlotProps | MaTSlab/src/use-figs.ts:24-52 | corrected: plotting keeps the figure numbers distinct |
| UseFigs.TraceList.Push | MaTSlab/src/use-figs.ts:23 | the accumulator is extended with the data |
| UseFigs.PlotImpl | MaTSlab/src/use-figs.ts:17-53 | the accumulator, when given, gains the data, and the figure list is updated as written |
| MatslabApp.StateFromUrl | MaTSlab/src/app.tsx:29-41 | a hash shorter than two characters gives no state; otherwise the decoding of the text after `#` |
| MatslabApp.StateFromUrlTail | MaTSlab/src/app.tsx:29-41 | only the text after the first character matters |
| MatslabApp.NewCellName | MaTSlab/src/app.tsx:152 | the new cell's name is the single character with code count + 97 |
| MatslabApp.AddCell | MaTSlab/src/app.tsx:148-155 | a cell is appended with that name and the text "\nexport {};"; the others are kept |
| MatslabApp.RemoveCell | MaTSlab/src/app.tsx:157-161 | removing never makes the list longer |
| MatslabApp.RemoveCellMembers | MaTSlab/src/app.tsx:157-161 | what remains is exactly the cells with other names |
| MatslabApp.RemoveCellAbsent | MaTSlab/src/app.tsx:157-161 | removing an unused name changes nothing |
| MatslabApp.RemoveCellAppend | MaTSlab/src/app.tsx:157-161 | removal keeps the order of the remaining cells |
| MatslabApp.AddCellThenRemove | MaTSlab/src/app.tsx:148-161 | adding a cell with an unused name and removing it gives the list back |
| MatslabApp.AddCellCanRepeatName | MaTSlab/src/app.tsx:152 | after a removal, adding a cell can reuse a live name: [a, b] minus a plus a cell gives two cells named b |
| MatslabApp.OnUpdate | MaTSlab/src/app.tsx:196-202 | the named cells get the results; every other field and cell is unchanged |
| MatslabApp.OnReportOnExecute | MaTSlab/src/app.tsx:185-194 | the named cells get the run callback; everything else is unchanged |
| MatslabApp.OnChangeText | MaTSlab/src/app.tsx:335-342 | the named cells get the text; everything else is unchanged |
| MatslabApp.UpdateNamed | MaTSlab/src/app.tsx:185-202 | the per-name update of `setCells(cells.map(...))` keeps the number of cells |
| MatslabApp.UpdateNamedIdempotent | MaTSlab/src/app.tsx:185-202 | applying the same field update twice is applying it once |
| MatslabApp.UpdateNamedCommutes | MaTSlab/src/app.tsx:185-202 | updates of different fields commute |
| MatslabApp.Rename | MaTSlab/src/app.tsx:234-243 | renaming keeps the number of cells |
| MatslabApp.RenameProps | MaTSlab/src/app.tsx:234-243 | a name with white space is ignored; otherwise exactly the cells with the current name take the new one and nothing else changes |
| MatslabApp.RenameRoundTrip | MaTSlab/src/app.tsx:234-243 | renaming a to an unused b and back gives the list back |
| MatslabApp.RenameKeepsDistinct | MaTSlab/src/app.tsx:234-243 | renaming to an unused name keeps names distinct |
| MatslabApp.ContentDebouncer.ChangeCellContents | MaTSlab/src/app.tsx:326-344 | a new edit replaces any pending one |
| MatslabApp.ContentDebouncer.Fire | MaTSlab/src/app.tsx:335-342 | the timer applies the last pending edit, or nothing, and clears it |
| MatslabApp.ClearedPanes | MaTSlab/src/app.tsx:207-215 | the cleared layout is one child of fraction 1 holding an empty leaf |
| MatslabApp.ClearAll | MaTSlab/src/app.tsx:204-216 | clearing empties the cells and figures and sets the cleared layout |
| MatslabApp.ClearAllProps | MaTSlab/src/app.tsx:204-216 | the cleared state shows no figure and is filled (so the later edits apply), and both path [0] and the first-leaf search give the empty leaf where the next figure goes |
| NewtonRenderer.Find | newton-fractals/src/webgl-renderer.ts:114 | `find` returns the first uniform with the name, or none when no uniform has it |
| NewtonRenderer.FindUnique | newton-fractals/src/webgl-renderer.ts:114 | the first uniform with the name is what `find` returns |
| NewtonRenderer.GetValue | newton-fractals/src/webgl-renderer.ts:121-130 | reading succeeds exactly when the first uniform with the name has the type, giving its value; otherwise "Missing uniform name" |
| NewtonRenderer.AssignValueProps | newton-fractals/src/webgl-renderer.ts:109-119 | only the value of the first uniform with the name changes, and only if its type matches; otherwise the table is unchanged |
| NewtonRenderer.AssignValue | newton-fractals/src/webgl-renderer.ts:109-119 | assigning a value keeps the length of the table |
| NewtonRenderer.GetAfterAssign | newton-fractals/src/webgl-renderer.ts:109-130 | reading a declared uniform after assigning it gives the assigned value |
| NewtonRenderer.GetOtherAfterAssign | newton-fractals/src/webgl-renderer.ts:109-130 | assigning one name does not change what another name reads |
| NewtonRenderer.AssignKeepsWellTyped | newton-fractals/src/webgl-renderer.ts:109-119 | a value of the right shape keeps every uniform's value matching its type |
| NewtonRenderer.AssignLocationProps | newton-fractals/src/webgl-renderer.ts:132-141 | only the location of the first uniform with the name changes |
| NewtonRenderer.AssignLocation | newton-fractals/src/webgl-renderer.ts:132-141 | assigning a location keeps the length of the table |
| NewtonRenderer.LocationsStep | newton-fractals/src/webgl-renderer.ts:166-172 | one pass of the location loop locates one more uniform |
| NewtonRenderer.LocationsDistinct | newton-fractals/src/webgl-renderer.ts:166-172 | with distinct names, after the loop every uniform has its own location |
| NewtonRenderer.DefaultUniforms | newton-fractals/src/webgl-renderer.ts:6-79 | the initial table has twelve uniforms |
| NewtonRenderer.DefaultUniformsDistinct | newton-fractals/src/webgl-renderer.ts:6-79 | the initial names are distinct and each value matches its type |
| NewtonRenderer.DefaultUniformsDeclared | newton-fractals/src/webgl-renderer.ts:6-79 | resolution, xLims and yLims are vec2, and time and auto are float |
| NewtonRenderer.Resized | newton-fractals/src/webgl-renderer.ts:232-240 | when the three uniforms are declared, after a resize the resolution is (width, height), x runs over [-2, 2] and y over ±2·height/width |
| NewtonRenderer.ResizedOthers | newton-fractals/src/webgl-renderer.ts:232-240 | a resize changes no other uniform |
| NewtonRenderer.LatestStepShort | newton-fractals/src/webgl-renderer.ts:245-248 | while the window is not full, pushing keeps every frame time |
| NewtonRenderer.LatestStepLong | newton-fractals/src/webgl-renderer.ts:245-248 | once full, a push drops the oldest frame time |
| NewtonRenderer.FramesAreLatest | newton-fractals/src/webgl-renderer.ts:242-257 | the window holds the latest 20 frame times, or all of them if fewer |
| NewtonRenderer.PushFrame | newton-fractals/src/webgl-renderer.ts:242-248 | the window grows by one until it holds 20 entries and then keeps its length, never exceeds 20, ends with the newest time, and keeps the latest earlier times in order |
| NewtonRenderer.RenderGuard | newton-fractals/src/webgl-renderer.ts:260-266 | render returns at once exactly without a program or context, or when not forced and auto is positive; reading auto throws exactly when it is missing and not forced; forced rendering with program and context always draws |
| NewtonRenderer.WebGLRenderer.constructor | newton-fractals/src/webgl-renderer.ts:81-95 | the renderer starts with the default table, no context or program, no init and an empty frame window |
| NewtonRenderer.WebGLRenderer.AssignUniformValue | newton-fractals/src/webgl-renderer.ts:109-119 | the table becomes `AssignValue` of it and nothing else changes |
| NewtonRenderer.WebGLRenderer.GetUniformValue | newton-fractals/src/webgl-renderer.ts:121-130 | the method returns `GetValue` of the table |
| NewtonRenderer.WebGLRenderer.AssignUniformLocation | newton-fractals/src/webgl-renderer.ts:132-141 | the table becomes `AssignLocation` of it and nothing else changes |
| NewtonRenderer.WebGLRenderer.AssignLocations | newton-fractals/src/webgl-renderer.ts:166-172 | after the loop every uniform that is the first of its name has the located position |
| NewtonRenderer.WebGLRenderer.ResizeCanvas | newton-fractals/src/webgl-renderer.ts:232-240 | without a context nothing changes; with one the table becomes `Resized` of it |
| NewtonRenderer.WebGLRenderer.CalcFPS | newton-fractals/src/webgl-renderer.ts:242-257 | the elapsed time is pushed into the window and the last frame time becomes now |
| NewtonRenderer.WebGLRenderer.CheckGuard | newton-fractals/src/webgl-renderer.ts:260-266 | the method computes the early-exit test |
| NewtonRenderer.WebGLRenderer.Render | newton-fractals/src/webgl-renderer.ts:259-326 | an early exit changes nothing (reporting the throw if auto is missing); otherwise a frame time is pushed, time is set to seconds since start, the first frame schedules one more plain render, and a positive auto schedules a forced one |
| NewtonRenderer.WebGLRenderer.DrawFrame | newton-fractals/src/webgl-renderer.ts:268-326 | the drawing part of render: FPS step, time update, init flag and the scheduled renders |
| Refiners.Refined | shady-business/src/refiners.ts:14-20 | one refinement turns n entries into 2n - 1: entry 2i is the old entry i and entry 2i+1 the midpoint of entries i and i+1 |
| Refiners.RefinedGridAt | shady-business/src/refiners.ts:14-20 | refining the evenly spaced grid of spacing 2h gives the evenly spaced grid of spacing h |
| Refiners.RefinedProps | shady-business/src/refiners.ts:14-20 | refinement keeps both ends and every old entry at the even positions |
| Refiners.RefineStep | shady-business/src/refiners.ts:14-20 | the refinement loop computes `Refined` |
| Refiners.Odds | shady-business/src/refiners.ts:10-12 | a round yields the entries at odd positions |
| Refiners.Yields | shady-business/src/refiners.ts:3-22 | after r rounds 2^r + 1 values have been yielded |
| Refiners.Level | shady-business/src/refiners.ts:14-20 | the working list of round r has 2^(r+1) + 1 entries |
| Refiners.YieldsPrefix | shady-business/src/refiners.ts:3-22 | later rounds only extend what earlier rounds yielded |
| Refiners.YieldsStartStop | shady-business/src/refiners.ts:6-7 | start and then stop are yielded first |
| Refiners.NthStartStop | shady-business/src/refiners.ts:6-7 | the first two values are start and stop |
| Refiners.LevelGrid | shady-business/src/refiners.ts:14-20 | the working list of round r is the even grid from start to stop with spacing (stop-start)/2^(r+1) |
| Refiners.LevelSorted | shady-business/src/refiners.ts:14-20 | that grid starts at start, ends at stop, is sorted and stays inside [start, stop] |
| Refiners.YieldsWithin | shady-business/src/refiners.ts:3-22 | everything yielded lies in [start, stop] |
| Refiners.NthWithin | shady-business/src/refiners.ts:3-22 | the k-th value lies in [start, stop] |
| Refiners.NthFromYields | shady-business/src/refiners.ts:3-22 | every round agrees with the round-independent k-th value |
| Refiners.TakeOdds | shady-business/src/refiners.ts:10-12 | the inner loop yields the odd entries, stopping after the wanted number |
| Refiners.YieldsRound | shady-business/src/refiners.ts:8-21 | one round extends the output by a prefix of the next round's yield and stops early only when the count is reached |
| Refiners.Refine | shady-business/src/refiners.ts:3-22 | taking `count` values of the generator gives exactly the first `count` values of the refinement order |
| Refiners.RefineRounds | shady-business/src/refiners.ts:8-21 | the round loop, started after start and stop, gives the first `count` values |
| Refiners.RefineRound | shady-business/src/refiners.ts:8-21 | one round yields a prefix of the next round's values, stops early only when `count` is reached, and refines the working list to the next round |
| Refiners.Floor | shady-business/src/refiners.ts:46-47 | `Math.floor` is the greatest integer at or below its argument |
| Refiners.Refiner | shady-business/src/refiners.ts:24-52 | the `for ... of` loop of either refiner yields the specified steps |
| Refiners.Steps | shady-business/src/refiners.ts:24-52 | numIter + 1 steps (none for a negative count), step k numbered k and carrying numIter |
| Refiners.DayRefinerProps | shady-business/src/refiners.ts:24-36 | numIter + 1 steps, numbered from 0, each changing only the hour, within [0, 24], starting at 0 then 24 |
| Refiners.YearRefinerProps | shady-business/src/refiners.ts:38-52 | numIter + 1 steps over [0, 364]: the day is the floor of the refined value and the hour 24 times its fraction, in [0, 24); other fields kept |
| FluxBuffers.PixelGain | shady-business/src/flux-buffer.ts:34-47 | with a non-negative amount, one pass adds at least nothing and at most the full amount to a pixel |
| FluxBuffers.PixelGainCases | shady-business/src/flux-buffer.ts:34-47 | the colour bar gains the row weight (times the flux); elsewhere a lit pixel gains the flux or one time unit and a shadowed one nothing |
| FluxBuffers.RowOffsetIsProduct | shady-business/src/flux-buffer.ts:32 | the running row offset is i·width |
| FluxBuffers.EntryRowColumn | shady-business/src/flux-buffer.ts:32 | entry i·width + j is row i, column j |
| FluxBuffers.GainAt | shady-business/src/flux-buffer.ts:30-34 | each pixel (i, j) is addressed once, at i·width + j inside the buffer |
| FluxBuffers.MaskCoversBuffer | shady-business/src/flux-buffer.ts:43 | with a mask of the buffer's size, every entry reads its own alpha byte |
| FluxBuffers.RowWeightRange | shady-business/src/flux-buffer.ts:37-41 | the colour-bar weight 1 - i/height lies in (0, 1] |
| FluxBuffers.GainBounds | shady-business/src/flux-buffer.ts:34-47 | one pass adds between 0 and the full amount to any entry |
| FluxBuffers.PassedBounded | shady-business/src/flux-buffer.ts:19-50 | with a non-negative flux each pass keeps every entry within [0, old max + amount], the bound `maxFlux`/`maxTime` tracks |
| FluxBuffers.Clamp | shady-business/src/flux-buffer.ts:64-66 | storing into a `Uint8ClampedArray` clamps to [0, 255] and rounds |
| FluxBuffers.ClampWhole | shady-business/src/flux-buffer.ts:64-66 | a byte value is stored as itself |
| FluxBuffers.Rgba | shady-business/src/flux-buffer.ts:64-67 | a pixel's four bytes end with an opaque alpha |
| FluxBuffers.ImageBytes | shady-business/src/flux-buffer.ts:52-75 | the image has four bytes per entry |
| FluxBuffers.ImageBytesLayout | shady-business/src/flux-buffer.ts:52-75 | pixel p's bytes are the colormap of its value over the maximum, alpha 255 |
| FluxBuffers.PixelBytes | shady-business/src/flux-buffer.ts:62-68 | each of pixel i's bytes is the matching byte of its colour |
| FluxBuffers.WritePixel | shady-business/src/flux-buffer.ts:63-67 | one loop pass writes one pixel's four bytes and nothing else |
| FluxBuffers.FluxBuffer.constructor | shady-business/src/flux-buffer.ts:10-17 | both buffers are zeroed, width·height long, and both maxima 0 |
| FluxBuffers.FluxBuffer.Accumulate | shady-business/src/flux-buffer.ts:19-50 | a size mismatch is logged; the maxima grow by the flux and by 1, and every entry gains its pixel's gain |
| FluxBuffers.FluxBuffer.AccumulateRows | shady-business/src/flux-buffer.ts:30-49 | the row loop adds every pixel's gain |
| FluxBuffers.FluxBuffer.AccumulateRow | shady-business/src/flux-buffer.ts:31-48 | one row of the loop adds that row's gains |
| FluxBuffers.FluxBuffer.AccumulatePixel | shady-business/src/flux-buffer.ts:32-47 | one pixel of the loop adds its gain to its entry of each buffer |
| FluxBuffers.FluxBuffer.ToImageData | shady-business/src/flux-buffer.ts:52-75 | the image is the chosen buffer over its maximum through the chosen colormap |
| Shapes.MakeRect | shady-business/src/rect.tsx:23-32 | a new rectangle carries the given id and no image source |
| Shapes.MakeHouse | shady-business/src/house.tsx:23-32 | a new house is the default rectangle with the house type |
| Shapes.MakeImage | shady-business/src/image.tsx:26-39 | a new image has the source, the width, the height as depth and no extrusion height |
| ShapeUnits.FromPx | shady-business/src/shape-utils.tsx:61-70 | without the offset, pixels are scaled by units per pixel |
| ShapeUnits.ToPx | shady-business/src/shape-utils.tsx:72-81 | without the offset, units are divided by units per pixel |
| ShapeUnits.ToFromPx | shady-business/src/shape-utils.tsx:61-81 | converting pixels to units and back gives the pixels |
| ShapeUnits.FromToPx | shady-business/src/shape-utils.tsx:61-81 | converting units to pixels and back gives the units |
| ShapeUnits.OriginIsOffset | shady-business/src/shape-utils.tsx:61-81 | pixel (0, 0) is the offset in units, and back |
| ShapeUnits.FromPxShift | shady-business/src/shape-utils.tsx:61-70 | a pixel displacement converts with the offset-free conversion |
| ShapeUnits.ChooseCoordinate | shady-business/src/shape-utils.tsx:39-45 | a truthy coordinate, or any coordinate when there is no touch list, is kept; a falsy one with touches takes the first touch's; it fails exactly for a falsy coordinate with an empty touch list |
| ShapeUnits.MakeMouseDown | shady-business/src/shape-utils.tsx:24-59 | the press fails exactly with an empty touch list and a falsy coordinate, and otherwise records the shape, handle and aspect flag |
| ShapeUnits.MouseKeepsCoordinates | shady-business/src/shape-utils.tsx:24-59 | a mouse press records its coordinates and the angle from the shape's pixel centre |
| ShapeUnits.ZeroFallsBackToTouch | shady-business/src/shape-utils.tsx:39-45 | an x of 0 is falsy, so the first touch's x is used instead |
| ShapeUnits.TouchUsesFirstTouch | shady-business/src/shape-utils.tsx:35-49 | a touch press records the first touch and an angle |
| Projection.Ground | shady-business/src/project.ts:23-29 | a point on the ground is its own shadow |
| Projection.ProjectShadow | shady-business/src/project.ts:23-29 | a downward sun throws, a horizontal one gives a non-finite point, and otherwise the ground point |
| Projection.GroundOnSunLine | shady-business/src/project.ts:23-29 | the shadow is where the sun ray through the point meets the ground |
| Projection.GroundShift | shady-business/src/project.ts:23-29 | two points at one height have shadows as far apart as the points |
| Projection.RotOdd | shady-business/src/project.ts:31-36 | rotating a mirrored point gives the mirrored rotation |
| Projection.RectVertices | shady-business/src/project.ts:38-61 | four corners whose opposite pairs are symmetric about the centre (x, y) |
| Projection.Rot | shady-business/src/project.ts:31-36 | with a cosine and sine of one angle, the turn keeps the distance from the origin |
| Projection.RectVerticesUnrotated | shady-business/src/project.ts:38-61 | without rotation the corners are the centre ± half width and depth |
| Projection.Midpoint | shady-business/src/project.ts:87-90 | the midpoint is equally far from both points |
| Projection.MidpointSymmetric | shady-business/src/project.ts:87-90 | the midpoint is symmetric and of a point with itself is the point |
| Projection.Lift | shady-business/src/project.ts:64-69 | the footprint lifted to a height keeps x and y |
| Projection.ProjectFaces | shady-business/src/project.ts:70-84 | one four-corner quad per face |
| Projection.HouseFacesIndexed | shady-business/src/project.ts:101-112 | the house faces index its ten vertices |
| Projection.ProjectAll | shady-business/src/project.ts:63-85 | a projection throws exactly for a downward sun and is non-finite exactly for a horizontal one |
| Projection.LiftedShadow | shady-business/src/project.ts:23-29 | a lifted corner's shadow is the corner shifted away from the sun, and itself at height 0 |
| Projection.PrismShadow | shady-business/src/project.ts:63-85 | a prism gives six quads: the footprint and the roof shifted by the height |
| Projection.HouseRidge | shady-business/src/project.ts:95-112 | the ridge ends are the midpoints of the short sides, shifted by the full height |
| Projection.FaceCorner | shady-business/src/project.ts:70-84 | each quad corner is the projection of the indexed vertex |
| Projection.HouseFootprint | shady-business/src/project.ts:101-112 | the house's first quad is its footprint |
| Projection.HouseEaves | shady-business/src/project.ts:96-112 | the eaves quad is the footprint shifted by two thirds of the height |
| Projection.HouseShadow | shady-business/src/project.ts:92-120 | a house gives ten quads: footprint, eaves at two thirds of the height and ridge at the full height |
| Projection.ProjectRect | shady-business/src/project.ts:63-85 | a rectangle (which always has a height) has a projection that throws exactly for a downward sun and is non-finite exactly for a horizontal one |
| Projection.ProjectHouse | shady-business/src/project.ts:92-120 | the same for a house, which always has a height |
| Projection.ProjectRectProps | shady-business/src/project.ts:63-85 | with the sun up, a rectangle gives six quads: the rotated footprint and the roof shifted by the height |
| Projection.ProjectHouseProps | shady-business/src/project.ts:92-120 | with the sun up, a house gives ten quads with footprint, eaves and ridge as above |
| ShadyApp.Spread | shady-business/src/app.tsx:70 | each field present in the patch replaces the shape's and each absent one keeps it, for every field; an empty patch changes nothing |
| ShadyApp.SpreadIdempotent | shady-business/src/app.tsx:70 | spreading the same patch twice is spreading it once |
| ShadyApp.ChangeShape | shady-business/src/app.tsx:66-79 | the shapes with the id get the patch; the others are kept |
| ShadyApp.ChangeShapeOthers | shady-business/src/app.tsx:66-79 | other shapes are unchanged, and an unknown id changes nothing |
| ShadyApp.ChangeShapeIdempotent | shady-business/src/app.tsx:66-79 | a patch without an id applied twice is applied once |
| ShadyApp.EditorUpdate | shady-business/src/app.tsx:365-377 | the shapes with the edited id are replaced by the edited shape |
| ShadyApp.EditorUpdateFinds | shady-business/src/app.tsx:88 | after an edit, the active shape with that id is the edited one when it existed |
| ShadyApp.FindShape | shady-business/src/app.tsx:88 | a found shape has the active id and is one of the shapes; nothing is found exactly when there is no active id or no shape has it |
| ShadyApp.FindShapeSpec | shady-business/src/app.tsx:88 | the active shape is the first with the active id; none means no shape has it |
| ShadyApp.Duplicate | shady-business/src/app.tsx:470-481 | a copy of the active shape with the new id is appended; without an active shape nothing happens |
| ShadyApp.Delete | shady-business/src/app.tsx:487-495 | the remaining shapes are exactly those with another id than the active one; without an active shape nothing happens |
| ShadyApp.WithoutIdMembers | shady-business/src/app.tsx:492 | what remains is exactly the shapes with other ids |
| ShadyApp.WithoutId | shady-business/src/app.tsx:492 | the filter never makes the list longer |
| ShadyApp.WithoutIdAbsent | shady-business/src/app.tsx:492 | removing an unused id changes nothing |
| ShadyApp.WithoutIdAppend | shady-business/src/app.tsx:492 | removal keeps the order of the remaining shapes |
| ShadyApp.DuplicateThenDeleteCopy | shady-business/src/app.tsx:470-495 | deleting a fresh duplicate gives the list back |
| ShadyApp.AddRect | shady-business/src/app.tsx:403-407 | a default rectangle is appended |
| ShadyApp.AddHouse | shady-business/src/app.tsx:414-418 | a default house is appended |
| ShadyApp.Images | shady-business/src/app.tsx:168 | the image list holds only images from the shapes |
| ShadyApp.NonImages | shady-business/src/app.tsx:167 | the other list holds only non-images from the shapes |
| ShadyApp.PartitionByType | shady-business/src/app.tsx:167-168 | the two lists together are the shapes, each exactly once |
| ShadyApp.UploadSize | shady-business/src/app.tsx:440-445 | an image size scales to fit 10 units, and a 0 x 0 image has none |
| ShadyApp.UploadSizeProps | shady-business/src/app.tsx:440-445 | the longer side becomes 10, the aspect ratio and orientation are kept |
| ShadyApp.Upload | shady-business/src/app.tsx:440-449 | an upload fails exactly for a 0×0 image; otherwise it appends, after the unchanged shapes, the image with the source and id at the size `UploadSize` gives: longer side 10 and the aspect ratio kept |
| ShadyApp.Reset | shady-business/src/app.tsx:256-264 | reset leaves one default rectangle and moves the view offset to the origin, keeping the scale |
| ShadyApp.ResetShowsOrigin | shady-business/src/app.tsx:256-264 | after a reset pixel (0, 0) shows the world origin |

## Left out

- Rendering and browser APIs are not modelled: React components and hooks, the DOM, canvas `putImageData`, WebGL draw and shader calls, `console` logging and timing, `requestAnimationFrame` and timers. Each handler is modelled by the state change it makes.
- `paintQTree` (CSG/src/canvas.tsx:66-91) is not modelled, because only `paintQTreeEdges` is called. The `mouseDown` flag and the `getImageCoords` event geometry are also left out.
- The pane tree is modelled on values: a path update rebuilds the tree where the source mutates the node in place. The aliasing between the props object and the mutated nodes is therefore not captured. `filterAllEmpty`'s mutation is modelled as the pair (returned, mutated), proved equal.
- The `FigurePanes` component's effect (MaTSlab/src/figure-panes.tsx:237-252) that gives every figure a home pane, and the `useDrag` mouse state, are not modelled.
- FigurePanes.Drag and FigurePanes.OnDrag require a non-zero total of the fractions after the dragged one (`DragDefined`), because a zero total makes JavaScript divide 0 by 0. `ensureFill` requires that every non-empty array's fractions have a non-zero total, at every depth (`Fillable`), for the same reason; fractions may still be zero or negative.
- GlobalsImpl.MatBinary requires rectangular matrices for a matrix argument. With ragged rows the source's element-wise map can read past a shorter row.
- Division by zero in vector and matrix `div` is excluded by `VecDefined`/`MatDefined`, since the source would produce `Infinity`.
- `Math.sin`, `Math.cos`, `Math.tan`, `Math.exp`, `Math.pow` and `Math.atan2` are parameters of the model. So are the colormaps, the image decoder, the GL uniform-location lookup, and the device pixel ratio and √3/2 given to the newton renderer.
- The sun flux computation, `plot`/`clear` on the flux buffer, and `calculate.ts` are not part of this model.
- Random shape ids (`Math.random`) are parameters, and `updateURL`/`saveStateToURL` are not modelled.
- MatslabApp.NewCellName requires `count + 97` below the UTF-16 surrogate range, since `String.fromCharCode` is modelled only on characters Dafny can represent.
- Run callbacks (`onExecute`) are modelled as integer handles, and figure data as opaque trace values.
- The regular expressions' `lastIndex` shared across calls is not modelled; each scan starts at 0, which is how `getMatches` uses them.
- The FPS value itself (a mean of reals) and `reportFPS` are not modelled; the model keeps the 20-frame window.
- `numIter` is an integer, and the refiners' lazy generators are modelled by the finite prefix a caller takes.
- Floating point is modelled by mathematical reals, `Uint8Array` stores by truncation modulo 256 and `Uint8ClampedArray` by clamping and rounding. `NaN`/`Infinity` results are excluded or modelled as explicit cases: a zero maximum gives a `None` quotient to the colormap, and a horizontal sun gives a `NonFinite` shadow.
- ShapeUnits.ToPx requires a non-zero `unitsPerPixel`.
- QuadTree.QTree: complete coverage of the opaque pixels is stated only for `minSize` at most 1, since larger sizes deliberately leave small areas out. Which images reach the 10000-iteration cap is stated only for `minSize` at most 0 and images one pixel wide or tall (always); with `minSize` 1 the cap is not characterised.
- QuadTree.Split: its own contract states the loop invariant, that the stack below the popped rectangle is kept, and that a rectangle at most one pixel wide or tall pushes an empty one; QuadTree.SplitWhole, QuadTree.SplitLeft, QuadTree.SplitRight, QuadTree.SplitBottom, QuadTree.SplitTop and QuadTree.PushEach state the exact lists each case appends.
- UseFigs.RemoveFig: its own contract states only the length; the lemmas in the rows beside it state the contents.
- MatslabApp.RemoveCell: its own contract states only the length; the lemmas in the rows beside it state the contents.
- MatslabApp.Rename: its own contract states only the length; the lemmas in the rows beside it state the contents.
- MatslabApp.UpdateNamed: its own contract states only the length; the lemmas in the rows beside it state the contents.
- NewtonRenderer.AssignValue: its own contract states only the length; the lemmas in the rows beside it state the contents.
- NewtonRenderer.AssignLocation: its own contract states only the length; the lemmas in the rows beside it state the contents.
- ShadyApp.WithoutId: its own contract states only the length; the lemmas in the rows beside it state the contents.
- Projection.ProjectRect: its own contract states only the error cases; Projection.ProjectRectProps states the quads.
- Projection.ProjectHouse: its own contract states only the error cases; Projection.ProjectHouseProps states the quads.

## Findings

| source | as written | input that shows it | evidently intended | confidence | as-written member | corrected member |
|---|---|---|---|---|---|---|
| MaTSlab/src/figure-panes.tsx:118-127 | after closing a figure, the new active figure is the second-to-last figure from before the removal, which can be the figure just closed | a leaf with figures [2, 3] and 2 active: closing removes 2 but leaves 2 active | the active figure after a close is one of the remaining figures, or none when no figure remains | not executed | FigurePanes.CloseFigureAsWritten, FigurePanes.CloseFigureAsWrittenKeepsRemoved | FigurePanes.CloseFigure |
| MaTSlab/src/use-figs.ts:24-37 | `plot` checks whether the figure exists in the list captured at render time, but appends to the latest list | two `plot` calls to a new figure number 1 in one cell run: both find no figure 1, and both append one | a figure number appears at most once; the second plot updates the first's figure | not executed | UseFigs.PlotAsWritten, UseFigs.PlotAsWrittenDuplicates | UseFigs.PlotProps |
| CSG/src/canvas.tsx:98 | `paintQTreeEdges` calls `qtree` with no `minSize`, so the size guard (CSG/src/qtree.ts:87) never fires. An empty rectangle is classed 0.5, its quadrants are empty too, and so it is pushed back after every split; the loop only ends at the 10000-split cap, which throws. The as-written call is `PaintQTreeEdges(0)`, the corrected one `PaintQTreeEdges(1)` | a canvas one pixel tall; or a stroke whose tiling reaches a 2×2 block with only its bottom-right pixel transparent: the left-pair case pushes the opaque top-right pixel, and splitting that pixel pushes empty rectangles | `minSize` 1, which drops exactly the empty rectangles, so that a successful tiling covers each opaque pixel exactly once | not executed | QuadTree.QTree, QuadTree.Split, QuadTree.StuckStays, QuadTree.CornerBlockPushesPixel, CsgCanvas.DrawableCanvas.PaintQTreeEdges | CsgCanvas.DrawableCanvas.MouseUp |
