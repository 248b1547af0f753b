# CxImage ICO codec and the CamEncoder video encoder, modelled in Dafny

This project models two parts of the recorder.

**The ICO codec of CxImage (`CxImageICO`).**
- `Decode` reads the icon or cursor file header and the directory. It then reads one page:
  - a standard DIB image, meaning the BITMAPINFOHEADER, the palette, the pixels and the AND mask;
  - or a Vista PNG payload.
- It then derives transparency from the AND mask.
- The single-image `Encode` writes the file header, a directory entry and the body of one image, as its flags ask.
- The multi-page `Encode` writes a complete icon file from a list of images.

**The H.264 video encoder of CamEncoder (`av_video`).**
- Frame-rate truncation and `set_fps`.
- The GOP estimate.
- The preset, tune and profile options.
- The constructor's configuration of the codec context and the option dictionary.
- Frame allocation.
- Pushing a captured bitmap through the scaler to the encoder.
- Pulling encoded packets.

**The file.** A `CxFile` is a class holding a byte sequence and a cursor:
- `Read` copies the bytes available at the cursor;
- `Write` overwrites or extends the data.

**The image object.** `CxImageIco` is a class whose pixel, palette and alpha buffers are arrays. `Snapshot()` gives its value as an `IcoImage.Image`.

**How the two codec directions are specified.**
- Every decoding step is a method proved equal to a function of the file's bytes in `IcoDecodeSpec`.
- Every encoding step writes exactly what a function in `IcoEncodeSpec` says.
- The properties are lemmas about those functions:
  - round trips of the header structures, the BGRA split and pack, and the AND mask;
  - the meaning of the transparency scans;
  - the byte layout of a multi-page file.

**Byte order.** The ICO structures are little-endian on the wire. The structures are read raw and then converted with `m_ntohs`/`m_ntohl`/`bihtoh`, which swap only on big-endian hosts. `HostOrder` and `IcoMemory` prove that reading raw and then converting gives the little-endian value on both kinds of host, so the format is little-endian everywhere. `idType` and `idCount` are read little-endian, like every other field.

**FFmpeg calls.** The model does not implement FFmpeg. Each call the video encoder makes is a parameter that gives the call's answer:
- `avcodec_find_encoder`;
- `av_find_nearest_q_idx`, a `NearestQ` function that returns some valid index;
- `av_frame_alloc`/`av_frame_get_buffer`;
- `sws_scale`;
- `avcodec_send_frame`;
- `avcodec_receive_packet`.

## Model

| member | source | states |
|---|---|---|
| HostOrder.LoadThenNtoHS | CxImage/CxImage/ximaico.cpp:24-27 | a 16-bit field read raw and converted with m_ntohs is the little-endian value of its two bytes, on little- and big-endian hosts |
| HostOrder.LoadThenNtoHL | CxImage/CxImage/ximaico.cpp:40-43 | a 32-bit field read raw and converted with m_ntohl is the little-endian value of its four bytes on every host |
| HostOrder.NtoHSInvolution | CxImage/CxImage/ximaico.cpp:26-27 | m_ntohs applied twice gives the value back on every host |
| HostOrder.NtoHLInvolution | CxImage/CxImage/ximaico.cpp:42-43 | m_ntohl applied twice gives the value back on every host |
| HostOrder.NtoHSThenStore | CxImage/CxImage/ximaico.cpp:364-366 | a 16-bit field converted and then written raw lands on the wire little-endian on every host |
| HostOrder.NtoHLThenStore | CxImage/CxImage/ximaico.cpp:375-376 | a 32-bit field converted and then written raw lands on the wire little-endian on every host |
| IcoMemory.HeaderFromMemory | CxImage/CxImage/ximaico.cpp:24-30 | the ICONHEADER as the decoder sees it (idType/idCount converted, idReserved raw) has the little-endian type and count, and its reserved field is zero exactly when the wire field is |
| IcoMemory.EntryFromMemory | CxImage/CxImage/ximaico.cpp:37-44 | a directory entry read raw and converted is the little-endian parse of its 16 bytes |
| IcoMemory.InfoHeaderFromMemory | CxImage/CxImage/ximaico.cpp:86-88 | a BITMAPINFOHEADER read raw and converted with bihtoh is the little-endian parse of its 40 bytes |
| IcoMemory.HeaderToMemory | CxImage/CxImage/ximaico.cpp:363-369 | the header the encoder converts and writes is exactly the little-endian serialisation |
| IcoMemory.EntryToMemory | CxImage/CxImage/ximaico.cpp:372-381 | the directory entry the encoder converts and writes is exactly the little-endian serialisation |
| IcoMemory.InfoHeaderToMemory | CxImage/CxImage/ximaico.cpp:394-396 | the BITMAPINFOHEADER the encoder converts and writes is exactly the little-endian serialisation |
| IcoFormat.ParseHeaderBytes | CxImage/CxImage/ximaico.cpp:24-30 | an ICONHEADER serialised and parsed again is the same header |
| IcoFormat.ParseEntryBytes | CxImage/CxImage/ximaico.cpp:37-44 | a directory entry serialised and parsed again is the same entry |
| IcoFormat.EntryBytesParse | CxImage/CxImage/ximaico.cpp:37-44 | any 16 bytes parsed as an entry and serialised again are the same bytes |
| IcoFormat.ParseInfoHeaderBytes | CxImage/CxImage/ximaico.cpp:86-88 | a BITMAPINFOHEADER serialised and parsed again is the same header |
| CxFiles.CxFile.Read | CxImage/CxImage/ximaico.cpp:24 | the bytes available at the cursor go to the front of the buffer and the cursor moves past them; one item is counted only when all n bytes were there |
| CxFiles.CxFile.Write | CxImage/CxImage/ximaico.cpp:363-369 | the bytes go at the cursor, overwriting or extending the file, and the cursor moves past them |
| IcoCodec.ReadHeader | CxImage/CxImage/ximaico.cpp:19-30 | the header read accepts exactly the headers with reserved 0 and type 1 or 2 and yields their page count |
| IcoCodec.ReadEntries | CxImage/CxImage/ximaico.cpp:35-44 | the directory loop yields the idCount entries of the file one after another and leaves the cursor after them |
| IcoDecodeSpec.DirectoryAt | CxImage/CxImage/ximaico.cpp:35-44 | when the file holds the whole directory, entry i is the 16 bytes at 16i past the directory start and the cursor ends right after the directory |
| IcoDecodeSpec.DecodeIco | CxImage/CxImage/ximaico.cpp:15-247 | Decode succeeds exactly when the header is an icon or cursor header and the requested page exists; a bad header leaves the image untouched; a missing page sets only the frame count |
| IcoDecodeSpec.DecodeDirectory | CxImage/CxImage/ximaico.cpp:32-46 | after a good header Decode succeeds iff 0 <= page < idCount, and a failure sets nNumFrames and nothing else |
| IcoDecodeSpec.DecodeEntry | CxImage/CxImage/ximaico.cpp:48-93 | a chosen page always succeeds; only an entry with width and height 0 goes to the PNG decoder; with nEscape == -1 a DIB page gives only the entry's width and height |
| IcoCodec.CxImageIco.Decode | CxImage/CxImage/ximaico.cpp:15-247 | a null file fails and changes nothing; otherwise the result, the image, the cursor and the frame/escape settings are those of DecodeIco on the file's bytes, and the file's bytes are unchanged |
| IcoCodec.CxImageIco.DecodeDirectoryFrom | CxImage/CxImage/ximaico.cpp:32-46 | after the header the method leaves what DecodeDirectory says: directory read, page checked, page decoded |
| IcoCodec.CxImageIco.DecodeEntryFrom | CxImage/CxImage/ximaico.cpp:46-93 | the chosen page is decoded as DecodeEntry says, taking over the PNG decoder's image when that succeeds |
| IcoCodec.CxImageIco.DecodeDibFrom | CxImage/CxImage/ximaico.cpp:70-236 | a standard icon page is read as DecodeDib says: header, Create at the entry's size and the header's bit count, then palette, pixels and mask |
| IcoCodec.CxImageIco.ReadPaletteFrom | CxImage/CxImage/ximaico.cpp:95-102 | biClrUsed entries are read when the header names a count, the image's own count otherwise, and the image takes its own count of them |
| IcoCodec.CxImageIco.ReadPixelsFrom | CxImage/CxImage/ximaico.cpp:104-127 | up to 24 bits biSizeImage bytes go straight into the pixel buffer; a 32-bit icon is split into the 24-bit buffer and the alpha plane; nothing else changes |
| IcoCodec.CxImageIco.ReadBgraFrom | CxImage/CxImage/ximaico.cpp:107-127 | the 4*W*H bytes are split into the colour buffer and an alpha plane, which is created when missing |
| IcoCodec.SplitInto | CxImage/CxImage/ximaico.cpp:114-125 | the nested pixel loop leaves the B, G, R bytes of quadruple k at pixel k's place in the padded 24-bit buffer and byte 3 in alpha[k] |
| IcoRaster.SplitThenPack | CxImage/CxImage/ximaico.cpp:114-125 | splitting BGRA quadruples into the colour buffer and alpha and packing them again gives back the original bytes |
| IcoRaster.PackThenSplitPixels | CxImage/CxImage/ximaico.cpp:407-423 | packing the colour buffer with alpha and splitting again gives back every colour byte |
| IcoRaster.PackThenSplitAlpha | CxImage/CxImage/ximaico.cpp:407-423 | packing and splitting again gives back the alpha plane |
| IcoCodec.CxImageIco.ReadMaskFrom | CxImage/CxImage/ximaico.cpp:129-236 | the AND mask, H rows of ((W+31)/32)*4 bytes, is applied only when it was read completely and is non-empty |
| IcoCodec.HasGoodMask | CxImage/CxImage/ximaico.cpp:134-140 | the mask is good exactly when some byte is not 0xFF |
| IcoCodec.CxImageIco.ApplyMaskTo | CxImage/CxImage/ximaico.cpp:133-236 | the image afterwards is ApplyMask: a good mask gives alpha, the single transparent colour and the unused index; a bad one gives transparent index 0 and the negative |
| IcoCodec.CxImageIco.MaskToAlpha | CxImage/CxImage/ximaico.cpp:144-160 | the image afterwards is ApplyMaskAlpha of it and the mask |
| IcoDecodeSpec.ApplyMaskAlpha | CxImage/CxImage/ximaico.cpp:144-160 | only alpha changes; the image has an alpha plane afterwards exactly when it had one or some pixel is masked |
| IcoCodec.MaskInto | CxImage/CxImage/ximaico.cpp:151-158 | the nested loop zeroes exactly the alpha of the masked pixels and reports whether one was masked |
| IcoCodec.CxImageIco.TransColorStep | CxImage/CxImage/ximaico.cpp:162-188 | the image afterwards is ApplyTransColor: with exactly one colour among masked pixels of an image of at most 8 bits, that colour and index become transparent and the alpha plane goes |
| IcoCodec.CxImageIco.ScanTransColors | CxImage/CxImage/ximaico.cpp:163-181 | the scan over all pixels yields ScanTrans of the image and the mask |
| IcoDecodeSpec.ScanTransEmpty | CxImage/CxImage/ximaico.cpp:163-181 | the scan counts nothing exactly when no pixel is masked |
| IcoDecodeSpec.ScanTransFirst | CxImage/CxImage/ximaico.cpp:163-181 | once something is counted, the scan holds the index and colour of the first masked pixel |
| IcoDecodeSpec.ScanTransSingle | CxImage/CxImage/ximaico.cpp:163-182 | the count ends at 1 exactly when some pixel is masked and every masked pixel has the first one's colour |
| IcoCodec.CxImageIco.UnusedIndexStep | CxImage/CxImage/ximaico.cpp:191-231 | the image afterwards is ApplyUnusedIndex: masked pixels move to the highest unused palette index, which becomes transparent when a pixel was masked |
| IcoCodec.CxImageIco.ColorsInUse | CxImage/CxImage/ximaico.cpp:196-203 | the colour-usage table over all pixels is ColorsUsed of the image |
| IcoDecodeSpec.ColorsUsedMeaning | CxImage/CxImage/ximaico.cpp:196-203 | entry i of the usage table is set exactly when some pixel has index i |
| IcoDecodeSpec.HighestUnused | CxImage/CxImage/ximaico.cpp:205-211 | the search returns an unused index with every higher index used, or -1 when all are used |
| IcoCodec.HighestUnusedIndex | CxImage/CxImage/ximaico.cpp:205-211 | the downward loop returns HighestUnused of the table |
| IcoDecodeSpec.RetransAt | CxImage/CxImage/ximaico.cpp:213-225 | after the retransparency loop a masked pixel has the chosen index and every other pixel keeps its own |
| IcoCodec.RetransLoop | CxImage/CxImage/ximaico.cpp:213-225 | the nested loop writes Retrans into the pixel buffer and reports whether any pixel was masked |
| IcoCodec.CxImageIco.Negative | CxImage/CxImage/ximaico.cpp:233-236 | the image afterwards is IcoImage.Negative of it, and the result says whether the image was valid |
| IcoImage.Negative | CxImage/CxImage/ximaico.cpp:233-236 | a colour palette is inverted; a greyscale or true-colour buffer is inverted byte by byte, with the 24-bit transparent colour; an invalid image is unchanged |
| IcoImage.NegativeInvolution | CxImage/CxImage/ximaico.cpp:233-236 | Negative applied twice gives back the image, unless inverting a colour palette made it greyscale |
| IcoEncodeSpec.LayoutOf | CxImage/CxImage/ximaico.cpp:310-319 | a true-colour image with alpha is written as 32 bits with 4 bytes per pixel, any other at its own depth and size; the mask has H rows of ((W+31)/32)*4 bytes |
| IcoCodec.CxImageIco.LayoutFields | CxImage/CxImage/ximaico.cpp:310-319 | the bit count, image size and mask size the encoder computes are LayoutOf the image |
| IcoEncodeSpec.EntryFor | CxImage/CxImage/ximaico.cpp:330-361 | the directory entry carries the image's width and height when both are at most 255, and 0 and 0 when the body is a PNG stream |
| IcoCodec.CxImageIco.PageFields | CxImage/CxImage/ximaico.cpp:330-361 | the entry, the BITMAPINFOHEADER and the PNG stream the encoder builds are EntryFor, InfoHeaderFor and the PNG encoder's output |
| IcoEncodeSpec.PaletteOut | CxImage/CxImage/ximaico.cpp:398-404 | the palette is written with the transparent entry as black with reserved 0 and every other entry as it is |
| IcoCodec.PackInto | CxImage/CxImage/ximaico.cpp:407-423 | the nested loop builds the BGRA buffer Pack of the colour buffer and alpha plane |
| IcoEncodeSpec.MaskRoundTrip | CxImage/CxImage/ximaico.cpp:443-457 | the AND mask the encoder writes reads back, bit by bit, as the transparency it was built from |
| IcoCodec.CxImageIco.BuildMask | CxImage/CxImage/ximaico.cpp:429-457 | the mask loop builds MaskOut of the image, a fresh buffer |
| IcoEncodeSpec.BodyLength | CxImage/CxImage/ximaico.cpp:330-361 | a body is as long as its entry's dwBytesInRes says, up to 32-bit truncation |
| IcoCodec.CxImageIco.WriteBodyTo | CxImage/CxImage/ximaico.cpp:386-462 | the body written at the cursor is the PNG stream or the DIB body: header, palette as written, pixels, mask |
| IcoEncodeSpec.HeaderStep | CxImage/CxImage/ximaico.cpp:322-369 | with bAppend nothing happens; without it the header is written and the running offset restarts past the header and the directory |
| IcoEncodeSpec.EncodePage | CxImage/CxImage/ximaico.cpp:294-465 | Encode succeeds exactly when the image is encodable: valid, no dimension over 255 without PNG support, no palette depth without a palette |
| IcoCodec.CxImageIco.Encode | CxImage/CxImage/ximaico.cpp:294-465 | a null file fails; otherwise the file, the cursor and the running offset become EncodePage's, or stay as they were when it refuses; the image is left as found |
| IcoEncodeSpec.EncodeAll | CxImage/CxImage/ximaico.cpp:254-292 | a list with an invalid page fails and writes nothing |
| IcoEncodeLayout.EncodeAllLayout | CxImage/CxImage/ximaico.cpp:254-292 | a list of encodable pages becomes, at the cursor, the header {0, 1, N}, the N entries with running offsets, then the N bodies |
| IcoEncodeLayout.OffsetIsBodyStart | CxImage/CxImage/ximaico.cpp:269-285 | the offset in page i's entry is where its body starts: header, directory and the bodies before it, modulo 2^32 |
| IcoEncodeSpec.HeaderPassStops | CxImage/CxImage/ximaico.cpp:269-279 | a failed round ends the header loop |
| IcoEncodeSpec.BodyPassStops | CxImage/CxImage/ximaico.cpp:280-285 | a failed round ends the body loop |
| IcoCodec.EncodePages | CxImage/CxImage/ximaico.cpp:254-292 | a null file, an empty list or a null page fails without writing; otherwise the file and cursor are those of EncodeAll; the pages are left as found |
| AvVideo.TruncateFps | CamEncoder/src/av_video.cpp:48-56 | the loop returns Truncated(fps): both components fit in 16 bits, and a rate that already fits is returned unchanged |
| AvVideo.TruncatedIsLeastShift | CamEncoder/src/av_video.cpp:48-56 | both components are shifted by the same count, the least one that makes both fit |
| AvVideo.Shifted | CamEncoder/src/av_video.cpp:50-54 | k rounds of shifting leave both components non-negative and divide each by 2^k |
| AvVideo.SetFps | CamEncoder/src/av_video.cpp:62-66 | time_base becomes {den, num} and framerate {num, den}, so their product is 1; nothing else in the context changes |
| AvVideo.GopSize | CamEncoder/src/av_video.cpp:71-75 | the GOP is 10 times the truncated integer quotient num/den plus 5, so it always ends in 5 |
| AvVideo.GopSizeExamples | CamEncoder/src/av_video.cpp:71-75 | 30/1 gives 305, 25/1 gives 255, 24000/1001 gives 235 |
| AvVideo.GopSizeMonotone | CamEncoder/src/av_video.cpp:71-75 | a rate at least one frame per second higher gives a GOP at least 10 frames longer |
| AvVideo.ApplyPreset | CamEncoder/src/av_video.cpp:77-83 | "preset" is set to the requested preset's name, or medium's; an index outside the table fails and leaves the dictionary unchanged |
| AvVideo.ApplyTune | CamEncoder/src/av_video.cpp:85-93 | without a tune nothing changes; with one "tune" is set to its name, or the lookup fails and nothing changes |
| AvVideo.ApplyProfile | CamEncoder/src/av_video.cpp:95-102 | without a profile nothing changes; with one "profile" is set to its name, or the lookup fails and nothing changes |
| AvVideo.CreateVideoFrame | CamEncoder/src/av_video.cpp:126-144 | no frame from av_frame_alloc gives null; otherwise success exactly when av_frame_get_buffer does not fail, with a fresh frame of the requested format and size |
| AvVideo.NewVideoEncoder | CamEncoder/src/av_video.cpp:146-238 | the constructor succeeds exactly for H.264 with an encoder found, known option names, an allocated frame buffer and a scaler; the new context is ContextFor and the dictionary OptionsFor |
| AvVideo.Configure | CamEncoder/src/av_video.cpp:172-234 | on a fresh context and dictionary the settings succeed exactly when the option names are known, and leave ContextFor and OptionsFor |
| AvVideo.ConfigureRate | CamEncoder/src/av_video.cpp:174-192 | the frame-rate part: meta.fps upside down, snapped to the nearest supported rate when the codec lists some, through set_fps, and the GOP from meta.fps |
| AvVideo.ApplyRateControl | CamEncoder/src/av_video.cpp:203-221 | a bitrate in kbit/s becomes bit_rate in bit/s and the dictionary is unchanged; without one the QSCALE flag is set and crf holds the quality |
| AvVideo.ApplyNames | CamEncoder/src/av_video.cpp:197-199 | the three option steps succeed exactly when all named options exist, and leave OptionsFor apart from crf |
| AvVideo.FinishContext | CamEncoder/src/av_video.cpp:223-234 | the frame size, YUV420P and the global-header flag are set and nothing else changes |
| AvVideo.BitrateWins | CamEncoder/src/av_video.cpp:203-210 | with a bitrate, bit_rate is 1000 times it even when a quality is also given, QSCALE is left as it was, and the global header is set |
| AvVideo.QualityMode | CamEncoder/src/av_video.cpp:211-221 | without a bitrate, bit_rate keeps its default and QSCALE and the global header are set |
| AvVideo.OptionKeys | CamEncoder/src/av_video.cpp:197-221 | the dictionary holds exactly preset, the tune and profile that were given, and crf (the quality) without a bitrate, each with its name |
| AvVideo.FrameRates | CamEncoder/src/av_video.cpp:174-192 | time_base is the reciprocal of framerate; without a rate list framerate is meta.fps upside down and time_base is meta.fps; with one framerate is a listed rate; the GOP comes from meta.fps |
| AvVideo.VideoEncoder.PushEncodeFrame | CamEncoder/src/av_video.cpp:279-329 | without an image only a flush is sent; a frame that cannot be made writable fails untouched; otherwise the frame holds the scaled rows the code addresses (first row 3*biWidth bytes before the end of the pixels, stepping back 3*biWidth bytes), which are the top-down picture when biWidth is a multiple of 4, stamped with the timestamp; success is the send result |
| AvVideo.VideoEncoder.PullEncodedPacket | CamEncoder/src/av_video.cpp:331-348 | the packet is valid exactly on 0 and then holds the payload, otherwise it is empty; the call succeeds exactly on 0, EAGAIN and EOF |
| AvVideo.CorrectedRowsArePicture | CamEncoder/src/av_video.cpp:303-316 | with the DIB's padded stride the scaler's source rows are the picture, top row first, for every width |
| AvVideo.StrideIsTight | CamEncoder/src/av_video.cpp:305-310 | the padded 24-bit stride equals 3*biWidth exactly when biWidth is a multiple of 4, and is never smaller |
| AvVideo.AsWrittenAlignedIsPicture | CamEncoder/src/av_video.cpp:303-316 | for widths that are a multiple of 4 the code as written reads the picture correctly |
| AvVideo.AsWrittenNarrowIsWrong | CamEncoder/src/av_video.cpp:303-316 | for a 1x2 bitmap the code as written hands the scaler padding and parts of both rows instead of the picture |
| AvVideo.AsWrittenUnalignedIsOff | CamEncoder/src/av_video.cpp:303-316 | for every other width the first source row starts inside the top row's padding and the step back is shorter than a row |

## Left out

- The `av_video` methods `open`, `dump_context`, `create_software_scaler` (only its success), the getters and the destructor are not modelled. They hand data to FFmpeg or print it.
- FFmpeg itself is not modelled. `avcodec_find_encoder`, `av_find_nearest_q_idx`, `av_frame_alloc`/`av_frame_get_buffer`, `av_frame_make_writable`, `sws_scale`, `avcodec_send_frame` and `avcodec_receive_packet` are parameters that give the call's answer.
- AvVideo.VideoEncoder.PushEncodeFrame: the YUV planes are whatever the scaler function returns. The destination strides (width, width/2, width/2) are not checked against the frame's linesizes.
- Pushed bitmaps: only bottom-up 24-bit bitmaps, with positive biHeight and biSizeImage equal to the padded rows, are pushed. The code assumes this format and a top-down DIB is outside the model.
- AvVideo.GopSize: the double arithmetic is written with reals and a truncating cast. The result must fit in an int32 and den must be non-zero, and both are preconditions.
- AvVideo.BitrateWins: `static_cast<int64_t>(1000.0 * bitrate)` is stated as the exact integer 1000 * bitrate. Rounding of large doubles is not modelled.
- AvVideo.NewVideoEncoder: the constructor's `assert(quality || bitrate)` is a precondition (RateControlSet). The thrown exceptions become `Err` results, and their messages are not modelled exactly.
- AvVideo.TruncateFps: the rate must be non-negative. For a negative component the C++ shift loop never ends.
- Option name tables: the preset, tune and profile name tables live in av_video.h, which is not part of this model. They are parameters, and `at()` failing is a false result.
- AvVideo.VideoEncoder.PushEncodeFrame: the scaler is handed the rows as the code addresses them, so for widths that are not a multiple of 4 the frame holds the misaddressed rows of the finding below. The corrected addressing is proved separately (AvVideo.CorrectedRowsArePicture) and is not what the push uses.
- AvVideo.VideoEncoder.PushEncodeFrame: any negative send result is a failure, including EAGAIN, as the code throws on every negative value.
- PNG (Vista) icon payloads are not modelled as bytes. The PNG decoder and encoder are function parameters, so CxImagePNG is not part of this model.
- CxImage's own helpers that the ICO codec calls (Create, SetPalette, Negative, AlphaCreate, AlphaDelete, SetTransIndex, SetTransColor, GetPixelColor, BlindGetPixelIndex, SetPixelIndex, AlphaPaletteIsValid, Transfer, Ghost) are defined in files that are not part of this model. They are modelled in their plain form, on zero-filled buffers.
- Short reads: bytes the code would leave uninitialised (stack structures, malloc'd buffers) read as zero in the model.
- IcoCodec.EncodePages: a NULL pImages array and an empty list are treated alike, and error strings (`cx_throw`) become a false result.
- IcoCodec.CxImageIco.ReadPaletteFrom: a biClrUsed above 256 makes the code read biClrUsed*4 bytes into the 256-entry stack array `pal`, which is undefined behaviour. The model reads into a zeroed buffer of max(1024, 4*biClrUsed) bytes and keeps the first 256 entries. IcoDecodeSpec.ReadPalette states the same.
- IcoCodec.CxImageIco.DecodeEntryFrom: a DIB entry with exactly one of bWidth/bHeight zero makes `Create` fail, and the code then reads through the stale `head` and `info.pImage`, which is undefined behaviour. In the model `Create` yields an invalid image with empty buffers and the reads go on against those.
- IcoCodec.CxImageIco.DecodeEntryFrom: `off + dwImageOffset` at or above 2^31 goes to `CxFile::Seek` as a signed long, whose result depends on the file implementation. The model seeks to `(off + dwImageOffset) % 2^32`.
- Memory allocation failures (malloc/calloc returning NULL) are not modelled.
- The `info.dwType` and `SetType` bookkeeping is not modelled.

## Findings

| source | as written | input that shows it | evidently intended | confidence | as-written member | corrected member |
|---|---|---|---|---|---|---|
| CamEncoder/src/av_video.cpp:303-310 | the source plane starts 3*biWidth bytes before the end of the pixels and steps back 3*biWidth bytes per row | a 1x2 24-bit bitmap, rows padded to 4 bytes (biSizeImage 8), bottom row 1 2 3 and top row 4 5 6: the scaler is handed 5 6 0 and 3 0 4 | start one padded row (((24*W+31)/32)*4 bytes) before the end and step back by that padded stride | not executed | AvVideo.AsWrittenNarrowIsWrong | AvVideo.CorrectedRowsArePicture |
