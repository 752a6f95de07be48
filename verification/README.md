# Ping-pong Game of Life stepper

A Dafny model of the GPU simulation core of the Tw1ddle "game-of-life" browser demo.
The core is the `GameOfLife` stepper. It holds two equally sized off-screen render targets, `ping` and `pong`. A `current` pointer names one of them. The fragment program's `tUniverse` sampler is bound to a texture. On every `render()` the stepper draws a full-screen quad into one target while sampling the other. The model also covers `isCellLive` and the empty `stampPattern`, and the capability `switch` in `Main.onWindowLoaded` that decides whether a stepper is built at all.

Files:

- `textures.dfy` (`Textures`): RGBA byte pixels, width x height textures, and the two renderer operations the stepper uses. `Shade` draws a full-screen quad through a fragment program into a cleared target. `ReadPixel` is the one-pixel read-back into a zeroed `Uint8Array(4)`. It also defines generations (`Step`, `Iterate`) and the copy program.
- `game_of_life.dfy` (`GameOfLife`): the stepper state (`Buf = Ping | Pong`, `current`, the bound `input`, both textures, and a `draws` trace of (source, target) pairs, one per render). It holds the operations and the parity, source-versus-target and generation lemmas.
- `bootstrap.dfy` (`Bootstrap`): capability dispatch on the detector's code and the three informational messages.

The renderer is a parameter: a fragment program is any function from (bound texture, x, y) to a pixel. The shipped fragment shader, which paints every pixel opaque orange, is `ConstantOrange`.

The order in the code matters. `render` first flips `current`, then binds the NEW current's texture as the input, then draws into the other buffer, which is the PREVIOUS current. So the buffer `isCellLive` and the display read is the one the last render sampled, not the one it wrote. Every render still reads what the render before it wrote (`DrawsAlternate`), but what is visible lags one generation behind (`GenerationLag`). The first render samples the untouched `pong` and overwrites `ping` (`SeededCellIsLost`).

One might expect `render` to sample the previous current and then make the just-written buffer current. In that reading, a cell seeded into `ping` would survive one render of a copying program. The code does not work that way. In the model of the code, that cell is dead after the first render and, because a never-drawn target is all zero, after every later one too (`SeededCellIsLost`).

## Model

| member | source | states |
|---|---|---|
| Textures.Fresh | bin/debug/js/gameoflife.js:8-9 | a freshly allocated render target is a well-formed grid of the requested size with every pixel transparent black |
| Textures.Shade | bin/debug/js/gameoflife.js:23 | drawing the full-screen quad into a cleared target overwrites every pixel of it with the program's output for the bound input, and keeps the target's size |
| Textures.ReadPixel | bin/debug/js/gameoflife.js:26-27 | the four-byte read-back holds the pixel's r, g, b, a bytes when (x, y) is inside the target, and stays all zero otherwise |
| GameOfLife.New | bin/debug/js/gameoflife.js:3-15 | construction gives two freshly allocated, all-zero buffers of identical width x height, makes `ping` current, binds `ping` as the sampled input, and has drawn nothing |
| GameOfLife.Render | bin/debug/js/gameoflife.js:18-24 | `current` flips; the sampled input becomes the new current; the draw writes the previous current, never the buffer it reads; the read buffer is unchanged; the written buffer holds the program's output over the input; validity is kept |
| GameOfLife.RenderWritesOneGeneration | bin/debug/js/gameoflife.js:19-23 | in a valid state the buffer a render writes is exactly one generation of the buffer it sampled |
| GameOfLife.RenderN | bin/debug/js/gameoflife.js:18-24 | after n renders (one per animation frame) `current` is the starting buffer iff n is even, the trace has grown by exactly the n scheduled draws, and validity is kept |
| GameOfLife.IsCellLive | bin/debug/js/gameoflife.js:25-30 | true iff the alpha byte of the pixel at (x, y) of the current buffer is 255; a live answer implies (x, y) is inside the buffer |
| GameOfLife.StampPattern | bin/debug/js/gameoflife.js:31-32 | the stepper comes back unchanged: same current, same bound input, same buffers, same trace |
| GameOfLife.OtherIsInvolution | bin/debug/js/gameoflife.js:19-22 | flipping twice returns the buffer; the other buffer is `ping` iff the buffer is `pong` |
| GameOfLife.Flipped | bin/debug/js/gameoflife.js:19 | a pointer flipped n times, one flip at a time, is back at its start iff n is even |
| GameOfLife.CurrentIsPingIffEven | bin/debug/js/gameoflife.js:10-19 | from construction, `current` is `ping` after n renders iff n is even |
| GameOfLife.DrawsAlternate | bin/debug/js/gameoflife.js:19-23 | from any state, the n draws of a run of n renders alternate: the k-th writes the initially current buffer and reads the other when k is even, and the reverse when k is odd |
| GameOfLife.AlternatingRunNeverReadsItsTarget | bin/debug/js/gameoflife.js:21-23 | in an alternating run no draw reads the buffer it writes, and each draw reads the buffer the previous draw wrote and writes the one it read |
| GameOfLife.DrawTargetsFromConstruction | bin/debug/js/gameoflife.js:10-23 | from construction the k-th draw writes `ping` and reads `pong` when k is even, and the reverse when k is odd; each draw after the first reads what the one before it wrote |
| GameOfLife.GenerationLag | bin/debug/js/gameoflife.js:19-23 | after n >= 1 renders the current buffer holds n - 1 generations of the initially non-current buffer, and the other buffer holds n |
| GameOfLife.IsCellLiveSeesRenderInput | bin/debug/js/gameoflife.js:19-30 | after a render, `IsCellLive` answers about the buffer that render sampled, not the one it wrote |
| GameOfLife.CopyRunShowsOnlyOtherBuffer | bin/debug/js/gameoflife.js:19-23 | with a copying program, after any n >= 1 renders the current buffer equals the buffer that was non-current before the first render |
| GameOfLife.SeededCellIsLost | bin/debug/js/gameoflife.js:8-30 | a 4 x 4 stepper with a live cell at (1, 1) in `ping` reads it live before rendering, and dead after every number n >= 1 of copying renders |
| GameOfLife.ConstantOrange | bin/debug/js/gameoflife.js:197 | the shipped fragment program writes alpha 255 at every pixel, whatever its input |
| GameOfLife.ConstantOrangeLiveFromSecondFrame | bin/debug/js/gameoflife.js:8-30 | with the shipped program, from construction, an in-range cell reads live after n renders iff n >= 2 |
| Bootstrap.InfoHtml | bin/debug/js/gameoflife.js:56-62 | each informational message starts with its own lead sentence and contains the repository URL |
| Bootstrap.Reason | bin/debug/js/gameoflife.js:54-63 | a nonzero code gives "does not support" iff it is 2, "disabled" iff it is 1, and "could not detect" iff it is neither |
| Bootstrap.OnWindowLoaded | bin/debug/js/gameoflife.js:46-73 | code 0 and only code 0 builds exactly the freshly constructed `New(500, 500)` stepper: both buffers all zero, `ping` current, no draws; every other code sets the informational element's inner HTML to exactly the message `InfoHtml` gives for its reason (the lead sentence of line 56, 59 or 62, then the repository link), holds no stepper, and links to the repository |
| Bootstrap.MessagesDiffer | bin/debug/js/gameoflife.js:54-63 | the three messages are pairwise different |
| Bootstrap.DispatchPartition | bin/debug/js/gameoflife.js:47-66 | two codes lead to the same page iff they are equal or both lie outside {0, 1, 2} |

## Left out

- THREE.js objects (camera, scenes, meshes, `ShaderMaterial`, `WebGLRenderTarget`) are foreign library code. Render targets are modelled as pixel grids. `renderer.render` becomes `Shade` and `readRenderTargetPixels` becomes `ReadPixel`. Two library behaviours are assumed rather than taken from source. A new target is all zero, both when it is read back and when it is sampled as a program's input before anything was drawn into it. A read-back outside the target writes nothing into the array.
- The clear flag of the draw (line 23) is not simulated separately. It fills the target with the red clear colour set at line 69, and the full-screen quad then overwrites every pixel, so `Shade` is the combined effect. A target that was only allocated and never drawn is `Fresh` (all zero), not red.
- GLSL shaders are GPU code. The vertex shader is not modelled. The fragment shader is `ConstantOrange`. Its green byte is written as 128, but the GPU may round 0.5 to 127; only the alpha byte matters to the model.
- DOM bootstrapping and input glue are I/O: element creation and styling, the event listeners, mouse-coordinate translation, `requestAnimationFrame`, `onResize`, `onPointerDown` and drawing the main scene. `RenderN` stands for the per-frame `render()` calls of `animate`.
- The `js_Boot.__string_rec` and `$bind` runtime helpers depend on JavaScript reflection and are not part of the demo's logic.
- `console.log` calls and the unused string constants are output only.
- SeededCellIsLost: for two or more renders the cell is dead only because the never-drawn `pong` is sampled as transparent black. If the library instead sampled a target that has no texture yet as opaque black, a copying program would make the cell live again at the second render. The lemma holds of the model, not of that alternative.
- The WebGL detector is foreign code. Its code is the parameter of `OnWindowLoaded`.
- Bootstrap.OnWindowLoaded: the model gives the message's inner HTML, not what the user sees. For a nonzero code the source appends the informational element to `gameDiv` (line 64) and returns (line 65). `gameDiv` was created detached (line 45) and is attached to `#game` only at lines 91-92, after that return, so the message never reaches the document. The model does not represent document attachment.
- The sampler binding is per stepper in the model (`Stepper.input`). In the source, every `GameOfLife` passes the same module-global `shaders_Life.uniforms` object (line 11, defined at line 195), and the display mesh at line 75 uses it too. The two agree only because line 73 builds a single stepper; several steppers sharing one binding are not modelled.
- Sizes are `nat`. The code only ever builds 500 x 500 targets. Which pixel row is y = 0 on the GPU is not modelled; rows are indexed by the y passed to the read-back.
- Integer widths: pixel bytes are a `byte` newtype in 0..255, and coordinates are unbounded integers. The mouse handler's `| 0` truncation belongs to the left-out input glue.
