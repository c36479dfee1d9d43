/** The formats truss reads and writes. */
module MediaTypes {
  datatype MediaType = Jpeg | Png | Webp | Bmp | Tiff | Gif | Svg
}
