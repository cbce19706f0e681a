/** The fixed character canvas the donut is drawn on: 80 columns by 22 rows,
    stored row-major in flat buffers of Width * Height cells. */
module Canvas {
  const Width: nat := 80
  const Height: nat := 22
  const Size: nat := Width * Height
}
